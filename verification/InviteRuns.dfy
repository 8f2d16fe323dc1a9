/** Properties of every sequence of calls on an invite store. */
module InviteRuns {
  import opened Prelude
  import opened Invites

  datatype Event =
    | Insert(record: InviteRecord)
    | Claim(id: string, key: string, notificationId: string)
    | Cancel(id: string)
    | List
    | MarkRead(notificationId: string)
    | MarkAllRead

  /** `saves` tells whether the file could be written. */
  datatype Call = Call(now: int, event: Event, saves: bool)

  function Step(state: State, call: Call): State {
    match call.event
    case Insert(record) => State(state.invites[record.inviteId := record], state.notifications)
    case Claim(id, key, notificationId) => Claiming(state, call.now, id, key, notificationId, call.saves).0
    case Cancel(id) => Cancelling(state, id, call.saves).0
    case List => State(RefreshAll(state.invites, call.now), state.notifications)
    case MarkRead(notificationId) =>
      var marked := MarkFirst(state.notifications, notificationId);
      if marked.Some? then State(state.invites, marked.value) else state
    case MarkAllRead => State(state.invites, MarkAll(state.notifications))
  }

  function Run(calls: seq<Call>): State {
    if calls == [] then State(map[], []) else Step(Run(calls[..|calls| - 1]), calls[|calls| - 1])
  }

  /** Inserted invites have new ids and are not claimed yet. */
  ghost predicate Fresh(state: State, event: Event) {
    event.Insert? ==>
      var record := event.record;
      record.inviteId !in state.invites && record.claimedAt.None? && record.claimedKey.None? && !record.status.Claimed?
  }

  ghost predicate FreshInserts(calls: seq<Call>) {
    forall i | 0 <= i < |calls| :: Fresh(Run(calls[..i]), calls[i].event)
  }

  ghost predicate Forward(calls: seq<Call>) {
    forall i, j :: 0 <= i < j < |calls| ==> calls[i].now <= calls[j].now
  }

  /** The calls before position `i` happen up to `now` and the others from `now` on. */
  ghost predicate Splits(calls: seq<Call>, i: nat, now: int) {
    && (forall j | 0 <= j < |calls| && j < i :: calls[j].now <= now)
    && (forall j | 0 <= j < |calls| && i <= j :: now <= calls[j].now)
  }

  // ---------------------------------------------------------------------------------------
  // Notifications
  // ---------------------------------------------------------------------------------------

  /** Time and key of each notification about an invite. */
  function ClaimsOf(notifications: seq<Notification>, id: string): seq<(int, string)> {
    if notifications == [] then []
    else
      var last := notifications[|notifications| - 1];
      ClaimsOf(notifications[..|notifications| - 1], id)
      + if last.inviteId == id then [(last.claimedAt, last.claimedKey)] else []
  }

  ghost predicate SameButRead(a: seq<Notification>, b: seq<Notification>) {
    |a| == |b| && forall i | 0 <= i < |a| :: b[i] == a[i].(read := b[i].read)
  }

  lemma {:induction false} ReadIrrelevant(a: seq<Notification>, b: seq<Notification>, id: string)
    requires SameButRead(a, b)
    ensures ClaimsOf(a, id) == ClaimsOf(b, id)
  {
    if a != [] {
      ReadIrrelevant(a[..|a| - 1], b[..|b| - 1], id);
      assert b[|b| - 1] == a[|a| - 1].(read := b[|b| - 1].read);
    }
  }

  lemma {:induction false} MarkFirstMarks(notifications: seq<Notification>, notificationId: string)
    requires MarkFirst(notifications, notificationId).Some?
    ensures SameButRead(notifications, MarkFirst(notifications, notificationId).value)
  {
    if notifications[0].notificationId != notificationId {
      MarkFirstMarks(notifications[1..], notificationId);
    }
  }

  lemma AppendClaim(notifications: seq<Notification>, n: Notification, id: string)
    ensures ClaimsOf(notifications + [n], id)
            == ClaimsOf(notifications, id) + if n.inviteId == id then [(n.claimedAt, n.claimedKey)] else []
  {
    assert (notifications + [n])[..|notifications|] == notifications;
  }

  // ---------------------------------------------------------------------------------------
  // One invite at a time
  // ---------------------------------------------------------------------------------------

  predicate Claimable(record: InviteRecord, now: int) {
    now < record.expiresAt && !record.status.Claimed? && !record.status.Cancelled?
  }

  predicate ClaimsIt(call: Call, id: string) {
    call.event.Claim? && call.event.id == id
  }

  function Lookup(invites: map<string, InviteRecord>, id: string): Option<InviteRecord> {
    if id in invites then Some(invites[id]) else None
  }

  /** The record of one invite after a call. */
  function Next(record: Option<InviteRecord>, call: Call, id: string): Option<InviteRecord> {
    if call.event.Insert? && call.event.record.inviteId == id then Some(call.event.record)
    else if record.None? then None
    else if ClaimsIt(call, id) then
      if Claimable(record.value, call.now) then
        Some(record.value.(status := Claimed, claimedAt := Some(call.now), claimedKey := Some(call.event.key)))
      else if call.now >= record.value.expiresAt then Some(record.value.(status := Expired))
      else record
    else if call.event.Cancel? && call.event.id == id && !record.value.status.Claimed? then
      Some(record.value.(status := Cancelled))
    else if call.event.List? then Some(Refresh(record.value, call.now))
    else record
  }

  /** A call changes an invite as its own record says, and adds a notification about it exactly
      when it claims it. */
  lemma StepIsLocal(state: State, call: Call, id: string)
    ensures Lookup(Step(state, call).invites, id) == Next(Lookup(state.invites, id), call, id)
    ensures ClaimsOf(Step(state, call).notifications, id)
            == ClaimsOf(state.notifications, id)
               + if id in state.invites && ClaimsIt(call, id) && Claimable(state.invites[id], call.now)
                 then [(call.now, call.event.key)] else []
  {
    hide ClaimsOf, MarkFirst, MarkAll;
    match call.event {
      case Insert(record) =>
      case Claim(claimed, key, notificationId) =>
        if claimed in state.invites {
          AppendClaim(state.notifications, Notice(state.invites[claimed], claimed, call.now, key, notificationId), id);
        }
      case Cancel(_) =>
      case List =>
      case MarkRead(notificationId) =>
        if MarkFirst(state.notifications, notificationId).Some? {
          MarkFirstMarks(state.notifications, notificationId);
          ReadIrrelevant(state.notifications, MarkFirst(state.notifications, notificationId).value, id);
        }
      case MarkAllRead =>
        ReadIrrelevant(state.notifications, MarkAll(state.notifications), id);
    }
  }

  /** A claim succeeds exactly before its time on an invite that is neither claimed nor cancelled,
      and then it notifies about this invite with its details, time and key; saving only decides
      about the answer. A late attempt leaves the invite expired, and every other refusal leaves
      everything as it was. */
  lemma ClaimOutcome(state: State, now: int, id: string, key: string, notificationId: string, saves: bool)
    ensures var (after, answer) := Claiming(state, now, id, key, notificationId, saves);
            if id !in state.invites then after == state && answer == Err(NotFound)
            else
              var record := state.invites[id];
              && after.invites.Keys == state.invites.Keys
              && (forall other | other in state.invites && other != id :: after.invites[other] == state.invites[other])
              && (after.invites[id].status.Claimed? && after.invites[id] != record <==>
                    now < record.expiresAt && record.status !in {Claimed, Cancelled})
              && (|after.notifications| > |state.notifications| <==>
                    now < record.expiresAt && record.status !in {Claimed, Cancelled})
              && (|after.notifications| > |state.notifications| ==>
                    && after.invites[id] == record.(status := Claimed, claimedAt := Some(now), claimedKey := Some(key))
                    && after.notifications == state.notifications
                         + [Notification(notificationId, id, record.identifierHash, record.displayHint,
                                         record.amountSats, now, key, false)]
                    && answer == if saves then Ok(after.invites[id]) else Err(SaveFailed))
              && (now >= record.expiresAt ==>
                    answer == Err(HasExpired) && after.invites[id] == record.(status := Expired))
              && (now < record.expiresAt && record.status.Claimed? ==> answer == Err(AlreadyClaimed) && after == state)
              && (now < record.expiresAt && record.status.Cancelled? ==> answer == Err(WasCancelled) && after == state)
  {
  }

  /** Notification `i` is the first with this identifier. */
  ghost predicate IsFirst(notifications: seq<Notification>, i: nat, notificationId: string) {
    && i < |notifications| && notifications[i].notificationId == notificationId
    && forall j | 0 <= j < i :: notifications[j].notificationId != notificationId
  }

  lemma FirstInRest(notifications: seq<Notification>, i: nat, notificationId: string)
    requires 0 < i < |notifications| && notifications[0].notificationId != notificationId
    ensures IsFirst(notifications, i, notificationId) <==> IsFirst(notifications[1..], i - 1, notificationId)
  {
    var rest := notifications[1..];
    assert forall j | 0 < j < i :: notifications[j] == rest[j - 1];
    assert forall j | 0 <= j < i - 1 :: rest[j] == notifications[j + 1];
  }

  lemma {:induction false} MarkFirstExact(notifications: seq<Notification>, notificationId: string)
    ensures var marked := MarkFirst(notifications, notificationId);
            && (marked.None? ==> forall i: nat :: !IsFirst(notifications, i, notificationId))
            && (marked.Some? ==>
                  |marked.value| == |notifications|
                  && forall i | 0 <= i < |notifications| ::
                       marked.value[i]
                       == if IsFirst(notifications, i, notificationId) then notifications[i].(read := true)
                          else notifications[i])
  {
    if notifications != [] {
      var rest := notifications[1..];
      MarkFirstExact(rest, notificationId);
      if notifications[0].notificationId == notificationId {
        assert IsFirst(notifications, 0, notificationId);
        assert forall i | 0 < i < |notifications| :: !IsFirst(notifications, i, notificationId);
      } else {
        forall i: nat | 0 < i < |notifications|
          ensures IsFirst(notifications, i, notificationId) <==> IsFirst(rest, i - 1, notificationId)
        {
          FirstInRest(notifications, i, notificationId);
        }
      }
    }
  }

  /** Which notifications a call leaves read: marking one reads the first with its identifier, marking
      all reads all, and no other call reads any. */
  lemma ReadExact(state: State, call: Call, i: nat)
    requires i < |state.notifications|
    ensures i < |Step(state, call).notifications|
    ensures var n := state.notifications[i];
            Step(state, call).notifications[i]
            == match call.event
               case MarkRead(notificationId) =>
                 n.(read := n.read || IsFirst(state.notifications, i, notificationId))
               case MarkAllRead => n.(read := true)
               case _ => n
  {
    if call.event.MarkRead? {
      MarkFirstExact(state.notifications, call.event.notificationId);
    }
    hide MarkFirst;
  }

  // ---------------------------------------------------------------------------------------
  // The invariant
  // ---------------------------------------------------------------------------------------

  /** A record and the notifications about it: one notification, with the record's claim, exactly
      when the record carries a claim; and a claim that no longer shows in the status lies on an
      invite whose time is over. */
  ghost predicate Sound(record: InviteRecord, claims: seq<(int, string)>, now: int) {
    && (record.claimedAt.Some? <==> record.claimedKey.Some?)
    && claims == (if record.claimedAt.Some? && record.claimedKey.Some?
                  then [(record.claimedAt.value, record.claimedKey.value)] else [])
    && (record.status.Claimed? ==> record.claimedAt.Some?)
    && (record.claimedAt.Some? ==>
          record.claimedAt.value < record.expiresAt && record.claimedAt.value <= now
          && (record.status.Claimed?
              || (now >= record.expiresAt && (record.status.Expired? || record.status.Cancelled?))))
  }

  ghost predicate Inv(state: State, now: int) {
    && Keyed(state.invites)
    && (forall id | id in state.invites :: Sound(state.invites[id], ClaimsOf(state.notifications, id), now))
    && (forall id: string | id !in state.invites :: ClaimsOf(state.notifications, id) == [])
  }

  lemma SoundLater(record: InviteRecord, claims: seq<(int, string)>, now: int, later: int)
    requires Sound(record, claims, now) && now <= later
    ensures Sound(record, claims, later)
  {
  }

  lemma InvLater(state: State, now: int, later: int)
    requires Inv(state, now) && now <= later
    ensures Inv(state, later)
  {
    hide ClaimsOf, Sound, Keyed;
    forall id | id in state.invites ensures Sound(state.invites[id], ClaimsOf(state.notifications, id), later) {
      SoundLater(state.invites[id], ClaimsOf(state.notifications, id), now, later);
    }
  }

  lemma InvAt(state: State, now: int, id: string)
    requires Inv(state, now)
    ensures id in state.invites
            ==> Sound(state.invites[id], ClaimsOf(state.notifications, id), now) && state.invites[id].inviteId == id
    ensures id !in state.invites ==> ClaimsOf(state.notifications, id) == []
  {
    hide ClaimsOf, Sound;
  }

  /** A record after a call, when the call happens at a time not before those so far. */
  lemma StepSound(state: State, call: Call, id: string)
    requires Inv(state, call.now) && Fresh(state, call.event)
    ensures id in Step(state, call).invites ==>
              Sound(Step(state, call).invites[id], ClaimsOf(Step(state, call).notifications, id), call.now)
              && Step(state, call).invites[id].inviteId == id
    ensures id !in Step(state, call).invites ==> ClaimsOf(Step(state, call).notifications, id) == []
  {
    hide ClaimsOf, Step, Inv;
    InvAt(state, call.now, id);
    StepIsLocal(state, call, id);
  }

  lemma StepKeepsInv(state: State, call: Call, now: int)
    requires Inv(state, now) && now <= call.now && Fresh(state, call.event)
    ensures Inv(Step(state, call), call.now)
  {
    InvLater(state, now, call.now);
    hide ClaimsOf, Sound, Step;
    forall id: string
      ensures id in Step(state, call).invites ==>
                Sound(Step(state, call).invites[id], ClaimsOf(Step(state, call).notifications, id), call.now)
                && Step(state, call).invites[id].inviteId == id
      ensures id !in Step(state, call).invites ==> ClaimsOf(Step(state, call).notifications, id) == []
    {
      StepSound(state, call, id);
    }
  }

  lemma PrefixOf(calls: seq<Call>)
    requires calls != [] && FreshInserts(calls) && Forward(calls)
    ensures FreshInserts(calls[..|calls| - 1]) && Forward(calls[..|calls| - 1])
    ensures Fresh(Run(calls[..|calls| - 1]), calls[|calls| - 1].event)
  {
    hide Run, Fresh;
    var front := calls[..|calls| - 1];
    forall i | 0 <= i < |front| ensures Fresh(Run(front[..i]), front[i].event) {
      assert front[..i] == calls[..i];
    }
  }

  /** With a clock that does not run backwards and fresh invites, whether or not saving works:
      every invite has at most one claim notification, exactly one if and only if it carries a
      claim, with the same time and key. */
  lemma {:induction false} RunSound(calls: seq<Call>, now: int)
    requires FreshInserts(calls) && Forward(calls) && Splits(calls, |calls|, now)
    ensures Inv(Run(calls), now)
    decreases |calls|
  {
    hide Step, Inv, Fresh;
    if calls == [] {
      EmptyInv(now);
    } else {
      var front, last := calls[..|calls| - 1], calls[|calls| - 1];
      PrefixOf(calls);
      RunSound(front, last.now);
      StepKeepsInv(Run(front), last, last.now);
      InvLater(Run(calls), last.now, now);
    }
  }

  lemma EmptyInv(now: int)
    ensures Inv(State(map[], []), now)
  {
  }

  // ---------------------------------------------------------------------------------------
  // Claims are final
  // ---------------------------------------------------------------------------------------

  /** A call changes the claim of an invite exactly when it claims it while it is claimable. */
  lemma ClaimExact(state: State, call: Call, id: string)
    requires Inv(state, call.now) && Fresh(state, call.event) && id in state.invites
    ensures id in Step(state, call).invites
    ensures var before, after := state.invites[id], Step(state, call).invites[id];
            (before.claimedAt, before.claimedKey) != (after.claimedAt, after.claimedKey)
            <==> ClaimsIt(call, id) && Claimable(before, call.now)
  {
    hide ClaimsOf, Step, Inv;
    InvAt(state, call.now, id);
    StepIsLocal(state, call, id);
  }

  /** Nobody can claim the invite any more. */
  predicate Settled(record: InviteRecord, now: int) {
    record.claimedAt.Some? || record.status.Cancelled? || now >= record.expiresAt
  }

  lemma StepSettled(state: State, call: Call, id: string)
    requires Inv(state, call.now) && Fresh(state, call.event) && id in state.invites
             && Settled(state.invites[id], call.now)
    ensures id in Step(state, call).invites && Settled(Step(state, call).invites[id], call.now)
    ensures Step(state, call).invites[id].claimedAt == state.invites[id].claimedAt
    ensures Step(state, call).invites[id].claimedKey == state.invites[id].claimedKey
    ensures Step(state, call).invites[id].expiresAt == state.invites[id].expiresAt
  {
    hide ClaimsOf, Step, Inv;
    InvAt(state, call.now, id);
    StepIsLocal(state, call, id);
  }

  lemma RunLast(calls: seq<Call>)
    requires calls != []
    ensures Run(calls) == Step(Run(calls[..|calls| - 1]), calls[|calls| - 1])
  {
    hide Step;
  }

  /** Once an invite is claimed, cancelled or past its time, its claim never changes again. */
  lemma {:induction false} ClaimIsFinal(calls: seq<Call>, i: nat, now: int, id: string)
    requires FreshInserts(calls) && Forward(calls) && i <= |calls| && Splits(calls, i, now)
    requires id in Run(calls[..i]).invites && Settled(Run(calls[..i]).invites[id], now)
    ensures id in Run(calls).invites
    ensures Run(calls).invites[id].claimedAt == Run(calls[..i]).invites[id].claimedAt
    ensures Run(calls).invites[id].claimedKey == Run(calls[..i]).invites[id].claimedKey
    ensures Run(calls).invites[id].expiresAt == Run(calls[..i]).invites[id].expiresAt
    ensures Settled(Run(calls).invites[id], if i < |calls| then calls[|calls| - 1].now else now)
    decreases |calls|
  {
    hide Step, Inv, Fresh, Run;
    if i == |calls| {
      assert calls[..i] == calls;
    } else {
      var front, last := calls[..|calls| - 1], calls[|calls| - 1];
      PrefixOf(calls);
      RunLast(calls);
      assert front[..i] == calls[..i];
      ClaimIsFinal(front, i, now, id);
      RunSound(front, last.now);
      StepSettled(Run(front), last, id);
    }
  }

  // ---------------------------------------------------------------------------------------
  // Cancelling a claimed invite
  // ---------------------------------------------------------------------------------------

  /** Somebody tried to claim the invite after its time. */
  ghost predicate TriedLate(calls: seq<Call>, id: string, expiresAt: int) {
    exists i :: 0 <= i < |calls| && ClaimsIt(calls[i], id) && calls[i].now >= expiresAt
  }

  /** A claimed invite still shows as claimed, so that cancelling it is refused, exactly as long
      as nobody tried to claim it after its time. */
  lemma {:induction false} CancelExact(calls: seq<Call>, id: string, saves: bool)
    requires FreshInserts(calls) && Forward(calls)
    requires id in Run(calls).invites && Run(calls).invites[id].claimedAt.Some?
    ensures Cancelling(Run(calls), id, saves).1 == Err(CannotCancelClaimed)
            <==> !TriedLate(calls, id, Run(calls).invites[id].expiresAt)
    decreases |calls|
  {
    hide Inv, Fresh, Step, TriedLate;
    var front, last := calls[..|calls| - 1], calls[|calls| - 1];
    PrefixOf(calls);
    RunSound(front, last.now);
    TriedLateStep(calls, id, Run(calls).invites[id].expiresAt);
    var before := Run(front);
    if id in before.invites && before.invites[id].claimedAt.Some? {
      CancelExact(front, id, saves);
      StepStatus(before, last, id);
    } else {
      NewClaim(before, last, id);
      NotYetLate(front, id, Run(calls).invites[id].expiresAt, last.now);
    }
  }

  lemma TriedLateStep(calls: seq<Call>, id: string, expiresAt: int)
    requires calls != []
    ensures TriedLate(calls, id, expiresAt) <==>
            TriedLate(calls[..|calls| - 1], id, expiresAt)
            || (ClaimsIt(calls[|calls| - 1], id) && calls[|calls| - 1].now >= expiresAt)
  {
    var front := calls[..|calls| - 1];
    if i :| 0 <= i < |front| && ClaimsIt(front[i], id) && front[i].now >= expiresAt {
      assert calls[i] == front[i];
    }
  }

  /** The status of a claimed invite leaves `Claimed` exactly through a late claim. */
  lemma StepStatus(state: State, call: Call, id: string)
    requires Inv(state, call.now) && Fresh(state, call.event) && id in state.invites
             && state.invites[id].claimedAt.Some?
    ensures id in Step(state, call).invites && Step(state, call).invites[id].expiresAt == state.invites[id].expiresAt
    ensures Step(state, call).invites[id].status.Claimed? <==>
            state.invites[id].status.Claimed? && !(ClaimsIt(call, id) && call.now >= state.invites[id].expiresAt)
  {
    hide ClaimsOf, Step, Inv;
    InvAt(state, call.now, id);
    StepIsLocal(state, call, id);
  }

  lemma NewClaim(state: State, call: Call, id: string)
    requires Inv(state, call.now) && Fresh(state, call.event)
    requires id in Step(state, call).invites && Step(state, call).invites[id].claimedAt.Some?
    requires id in state.invites ==> state.invites[id].claimedAt.None?
    ensures Step(state, call).invites[id].status.Claimed?
    ensures ClaimsIt(call, id) && call.now < Step(state, call).invites[id].expiresAt
  {
    hide ClaimsOf, Step, Inv;
    InvAt(state, call.now, id);
    StepIsLocal(state, call, id);
  }

  lemma NotYetLate(calls: seq<Call>, id: string, expiresAt: int, now: int)
    requires Splits(calls, |calls|, now) && now < expiresAt
    ensures !TriedLate(calls, id, expiresAt)
  {
  }

  // ---------------------------------------------------------------------------------------
  // When an invite can be claimed twice
  // ---------------------------------------------------------------------------------------

  /** The record of an inserted invite after further calls, at whatever times. */
  function Life(record: InviteRecord, calls: seq<Call>): InviteRecord {
    if calls == [] then record
    else
      var before := Life(record, calls[..|calls| - 1]);
      if calls[|calls| - 1].event.Insert? then before
      else Next(Some(before), calls[|calls| - 1], record.inviteId).value
  }

  predicate Claims(record: InviteRecord, calls: seq<Call>, k: nat)
    requires k < |calls|
  {
    ClaimsIt(calls[k], record.inviteId) && Claimable(Life(record, calls[..k]), calls[k].now)
  }

  /** How many of the calls claim the invite. */
  function ClaimCount(record: InviteRecord, calls: seq<Call>): nat {
    if calls == [] then 0
    else
      ClaimCount(record, calls[..|calls| - 1])
      + if Claims(record, calls, |calls| - 1) then 1 else 0
  }

  predicate LateTry(record: InviteRecord, call: Call) {
    ClaimsIt(call, record.inviteId) && call.now >= record.expiresAt
  }

  predicate EarlyTry(record: InviteRecord, call: Call) {
    ClaimsIt(call, record.inviteId) && call.now < record.expiresAt
  }

  predicate Cancels(record: InviteRecord, call: Call) {
    call.event.Cancel? && call.event.id == record.inviteId
  }

  /** No cancellation from call `lo` on and before call `hi`. */
  ghost predicate NoCancel(record: InviteRecord, calls: seq<Call>, lo: nat, hi: nat)
    requires hi <= |calls|
  {
    forall i | lo <= i < hi :: !Cancels(record, calls[i])
  }

  /** Call `j - 1` opens the invite for claiming: a late attempt, or the insertion itself when
      `j` is 0 and the invite was not inserted cancelled. */
  predicate OpensBefore(record: InviteRecord, calls: seq<Call>, j: nat)
    requires j <= |calls|
  {
    if j == 0 then !record.status.Claimed? && !record.status.Cancelled? else LateTry(record, calls[j - 1])
  }

  /** An early attempt `k` after an opening before `j`, with no cancellation in between. */
  ghost predicate Window(record: InviteRecord, calls: seq<Call>, j: nat, k: nat) {
    j <= k < |calls| && OpensBefore(record, calls, j) && EarlyTry(record, calls[k]) && NoCancel(record, calls, j, k)
  }

  predicate IsOpen(record: InviteRecord) {
    !record.status.Claimed? && !record.status.Cancelled?
  }

  lemma {:induction false} LifeKeeps(record: InviteRecord, calls: seq<Call>)
    ensures Life(record, calls).expiresAt == record.expiresAt && Life(record, calls).inviteId == record.inviteId
  {
    if calls != [] {
      LifeKeeps(record, calls[..|calls| - 1]);
    }
  }

  /** What one call does to the status. */
  lemma LifeStep(record: InviteRecord, calls: seq<Call>, n: nat)
    requires n < |calls|
    ensures var before, after, call := Life(record, calls[..n]), Life(record, calls[..n + 1]), calls[n];
            if LateTry(record, call) then IsOpen(after)
            else if EarlyTry(record, call) && IsOpen(before) then after.status.Claimed?
            else if Cancels(record, call) && IsOpen(before) then after.status.Cancelled?
            else (IsOpen(after) <==> IsOpen(before)) && (after.status.Claimed? <==> before.status.Claimed?)
    ensures ClaimCount(record, calls[..n + 1]) == ClaimCount(record, calls[..n])
            + if EarlyTry(record, calls[n]) && IsOpen(Life(record, calls[..n])) then 1 else 0
  {
    LifeKeeps(record, calls[..n]);
    assert calls[..n + 1][..n] == calls[..n];
  }

  lemma {:induction false} CountGrows(record: InviteRecord, calls: seq<Call>, m: nat, n: nat)
    requires m <= n <= |calls|
    ensures ClaimCount(record, calls[..m]) <= ClaimCount(record, calls[..n])
    decreases n
  {
    if m < n {
      CountGrows(record, calls, m, n - 1);
      LifeStep(record, calls, n - 1);
    }
  }

  /** After an opening and without a cancellation, the invite is open or has been claimed since. */
  lemma {:induction false} OpenOrClaimed(record: InviteRecord, calls: seq<Call>, j: nat, n: nat)
    requires j <= n <= |calls| && OpensBefore(record, calls, j) && NoCancel(record, calls, j, n)
    ensures IsOpen(Life(record, calls[..n])) || ClaimCount(record, calls[..n]) > ClaimCount(record, calls[..j])
    decreases n
  {
    hide Life, ClaimCount, IsOpen;
    if n == j {
      OpenedAt(record, calls, j);
    } else {
      OpenOrClaimed(record, calls, j, n - 1);
      CountGrows(record, calls, j, n - 1);
      LifeStep(record, calls, n - 1);
      assert !Cancels(record, calls[n - 1]);
      StatusCases(Life(record, calls[..n - 1]));
      StatusCases(Life(record, calls[..n]));
    }
  }

  lemma StatusCases(record: InviteRecord)
    ensures IsOpen(record) <==> !record.status.Claimed? && !record.status.Cancelled?
  {
  }

  lemma OpenedAt(record: InviteRecord, calls: seq<Call>, j: nat)
    requires j <= |calls| && OpensBefore(record, calls, j)
    ensures IsOpen(Life(record, calls[..j]))
  {
    if j > 0 {
      LifeStep(record, calls, j - 1);
    }
  }

  /** A window brings a claim. */
  lemma WindowClaims(record: InviteRecord, calls: seq<Call>, j: nat, k: nat)
    requires Window(record, calls, j, k)
    ensures ClaimCount(record, calls[..k + 1]) > ClaimCount(record, calls[..j])
  {
    hide Life, ClaimCount, IsOpen;
    OpenOrClaimed(record, calls, j, k);
    CountGrows(record, calls, j, k);
    LifeStep(record, calls, k);
  }

  /** An open invite that was not open at `m`, or at its insertion, was opened since and not
      cancelled after that. */
  lemma {:induction false} OpenedSince(record: InviteRecord, calls: seq<Call>, m: nat, n: nat) returns (j: nat)
    requires m <= n <= |calls| && IsOpen(Life(record, calls[..n])) && !record.status.Claimed?
    requires m == 0 || !IsOpen(Life(record, calls[..m]))
    ensures m <= j <= n && OpensBefore(record, calls, j) && NoCancel(record, calls, j, n)
    ensures m > 0 ==> j > m
    decreases n
  {
    if n == m {
      j := 0;
    } else {
      LifeStep(record, calls, n - 1);
      if LateTry(record, calls[n - 1]) {
        j := n;
      } else {
        hide Life, ClaimCount;
        j := OpenedSince(record, calls, m, n - 1);
      }
    }
  }

  /** The last claim among the calls. */
  lemma {:induction false} LastClaim(record: InviteRecord, calls: seq<Call>, n: nat) returns (k: nat)
    requires n <= |calls| && ClaimCount(record, calls[..n]) > 0
    ensures k < n && EarlyTry(record, calls[k]) && IsOpen(Life(record, calls[..k]))
            && Life(record, calls[..k + 1]).status.Claimed?
    ensures ClaimCount(record, calls[..n]) == ClaimCount(record, calls[..k]) + 1
    decreases n
  {
    hide Life, ClaimCount, IsOpen;
    if n == 0 {
      NoClaims(record, calls);
    }
    LifeStep(record, calls, n - 1);
    if ClaimCount(record, calls[..n]) > ClaimCount(record, calls[..n - 1]) {
      k := n - 1;
      NotLate(record, calls[k]);
    } else {
      k := LastClaim(record, calls, n - 1);
    }
  }

  lemma NoClaims(record: InviteRecord, calls: seq<Call>)
    ensures ClaimCount(record, calls[..0]) == 0
  {
  }

  lemma NotLate(record: InviteRecord, call: Call)
    requires EarlyTry(record, call)
    ensures !LateTry(record, call)
  {
  }

  /** Two windows, the second opened after the claim of the first: by a late attempt, then. */
  ghost predicate TwoWindows(record: InviteRecord, calls: seq<Call>, j1: nat, k1: nat, j2: nat, k2: nat) {
    Window(record, calls, j1, k1) && k1 < j2 && Window(record, calls, j2, k2)
  }

  /** At any times whatever, an invite is claimed twice exactly when an early attempt claims it, a
      late attempt follows that no cancellation follows, and then an early attempt again. */
  lemma SecondClaimExact(record: InviteRecord, calls: seq<Call>)
    requires !record.status.Claimed?
    ensures ClaimCount(record, calls) >= 2 <==>
            exists j1: nat, k1: nat, j2: nat, k2: nat :: TwoWindows(record, calls, j1, k1, j2, k2)
  {
    hide Life, ClaimCount, IsOpen, Window;
    assert calls[..|calls|] == calls;
    if ClaimCount(record, calls) >= 2 {
      var k2 := LastClaim(record, calls, |calls|);
      var k1 := LastClaim(record, calls, k2);
      ClaimedNotOpen(Life(record, calls[..k1 + 1]));
      var j2 := OpenedSince(record, calls, k1 + 1, k2);
      var j1 := OpenedSince(record, calls, 0, k1);
      IsWindow(record, calls, j1, k1);
      IsWindow(record, calls, j2, k2);
      assert TwoWindows(record, calls, j1, k1, j2, k2);
    }
    if j1: nat, k1: nat, j2: nat, k2: nat :| TwoWindows(record, calls, j1, k1, j2, k2) {
      WindowBounds(record, calls, j1, k1);
      WindowBounds(record, calls, j2, k2);
      WindowClaims(record, calls, j1, k1);
      WindowClaims(record, calls, j2, k2);
      CountGrows(record, calls, k1 + 1, j2);
      CountGrows(record, calls, k2 + 1, |calls|);
    }
  }

  lemma ClaimedNotOpen(record: InviteRecord)
    requires record.status.Claimed?
    ensures !IsOpen(record)
  {
  }

  lemma IsWindow(record: InviteRecord, calls: seq<Call>, j: nat, k: nat)
    requires j <= k < |calls| && OpensBefore(record, calls, j) && EarlyTry(record, calls[k])
             && NoCancel(record, calls, j, k)
    ensures Window(record, calls, j, k)
  {
  }

  lemma WindowBounds(record: InviteRecord, calls: seq<Call>, j: nat, k: nat)
    requires Window(record, calls, j, k)
    ensures j <= k < |calls|
  {
  }

  // The invite in a run

  lemma {:induction false} UnknownSilent(calls: seq<Call>, id: string)
    ensures id !in Run(calls).invites ==> ClaimsOf(Run(calls).notifications, id) == []
  {
    hide Step, ClaimsOf;
    if calls == [] {
      NoNotifications(id);
    } else {
      UnknownSilent(calls[..|calls| - 1], id);
      StepIsLocal(Run(calls[..|calls| - 1]), calls[|calls| - 1], id);
    }
  }

  lemma NoNotifications(id: string)
    ensures ClaimsOf([], id) == []
  {
  }

  /** An invite inserted in a run lives as its own record says, and is notified about as often as
      it is claimed. */
  lemma {:induction false} RunIsLife(before: seq<Call>, insertion: Call, after: seq<Call>)
    requires insertion.event.Insert? && insertion.event.record.inviteId !in Run(before).invites
    requires forall i | 0 <= i < |after| ::
               after[i].event.Insert? ==> after[i].event.record.inviteId != insertion.event.record.inviteId
    ensures var record, run := insertion.event.record, Run(before + [insertion] + after);
            && Lookup(run.invites, record.inviteId) == Some(Life(record, after))
            && |ClaimsOf(run.notifications, record.inviteId)| == ClaimCount(record, after)
    decreases |after|
  {
    hide Step, ClaimsOf, Lookup;
    var record := insertion.event.record;
    var calls := before + [insertion] + after;
    var front, last := calls[..|calls| - 1], calls[|calls| - 1];
    StepIsLocal(Run(front), last, record.inviteId);
    if after == [] {
      assert front == before;
      UnknownSilent(before, record.inviteId);
    } else {
      assert front == before + [insertion] + after[..|after| - 1];
      RunIsLife(before, insertion, after[..|after| - 1]);
      LookupIs(Run(front).invites, record.inviteId);
    }
  }

  lemma LookupIs(invites: map<string, InviteRecord>, id: string)
    ensures Lookup(invites, id) == if id in invites then Some(invites[id]) else None
  {
  }

  /** So an invite gets a second notification in a run exactly under that condition, and never
      when the clock does not run backwards. */
  lemma SecondNotificationExact(before: seq<Call>, insertion: Call, after: seq<Call>)
    requires insertion.event.Insert? && insertion.event.record.inviteId !in Run(before).invites
    requires forall i | 0 <= i < |after| ::
               after[i].event.Insert? ==> after[i].event.record.inviteId != insertion.event.record.inviteId
    requires !insertion.event.record.status.Claimed?
    ensures var record := insertion.event.record;
            |ClaimsOf(Run(before + [insertion] + after).notifications, record.inviteId)| >= 2 <==>
            exists j1: nat, k1: nat, j2: nat, k2: nat :: TwoWindows(record, after, j1, k1, j2, k2)
    ensures Forward(after)
            ==> |ClaimsOf(Run(before + [insertion] + after).notifications, insertion.event.record.inviteId)| < 2
  {
    hide Run, ClaimsOf, Life, ClaimCount;
    var record := insertion.event.record;
    RunIsLife(before, insertion, after);
    SecondClaimExact(record, after);
  }

  // ---------------------------------------------------------------------------------------
  // Two runs that show the limits
  // ---------------------------------------------------------------------------------------

  const SAMPLE: InviteRecord :=
    InviteRecord("i", "h", "d", 1, None, "f", Created, 0, 10, None, None)

  lemma RunFour(a: Call, b: Call, c: Call, d: Call)
    ensures Run([a, b, c, d]) == Step(Step(Step(Step(State(map[], []), a), b), c), d)
  {
    var calls := [a, b, c, d];
    assert calls[..3] == [a, b, c] && [a, b, c][..2] == [a, b] && [a, b][..1] == [a] && [a][..0] == [];
    assert Run([a]) == Step(State(map[], []), a);
    assert Run([a, b]) == Step(Run([a]), b);
    assert Run([a, b, c]) == Step(Run([a, b]), c);
  }

  /** Claimed at 5, claimed in vain at 10, then cancelled: the claim and its notification are on
      a cancelled invite. */
  lemma ClaimedThenCancelled()
    ensures var end := Run([Call(0, Insert(SAMPLE), true), Call(5, Claim("i", "k", "n"), true),
                            Call(10, Claim("i", "k", "m"), true), Call(11, Cancel("i"), true)]);
            "i" in end.invites && end.invites["i"].status == Cancelled && end.invites["i"].claimedAt == Some(5)
            && |end.notifications| == 1
  {
    RunFour(Call(0, Insert(SAMPLE), true), Call(5, Claim("i", "k", "n"), true),
            Call(10, Claim("i", "k", "m"), true), Call(11, Cancel("i"), true));
  }

  /** If the clock runs backwards, an invite can be claimed twice. */
  lemma ClockBackwards()
    ensures var end := Run([Call(0, Insert(SAMPLE), true), Call(5, Claim("i", "k", "n"), true),
                            Call(10, Claim("i", "x", "m"), true), Call(6, Claim("i", "l", "o"), true)]);
            ClaimsOf(end.notifications, "i") == [(5, "k"), (6, "l")]
  {
    RunFour(Call(0, Insert(SAMPLE), true), Call(5, Claim("i", "k", "n"), true),
            Call(10, Claim("i", "x", "m"), true), Call(6, Claim("i", "l", "o"), true));
    var first := Notification("n", "i", "h", "d", 1, 5, "k", false);
    var second := Notification("o", "i", "h", "d", 1, 6, "l", false);
    AppendClaim([], first, "i");
    AppendClaim([first], second, "i");
    assert [] + [first] == [first] && [first] + [second] == [first, second];
  }
}
