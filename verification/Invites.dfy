/** The store of invites and claim notifications. The clock, the generated notification ids and
    the outcome of saving the file are parameters; the state in memory changes whether or not
    saving succeeds. */
module Invites {
  import opened Prelude

  datatype Status = Created | EmailSent | Claimed | Expired | Cancelled

  datatype InviteRecord = InviteRecord(
    inviteId: string, identifierHash: string, displayHint: string, amountSats: nat, memo: Option<string>,
    senderFingerprint: string, status: Status, createdAt: int, expiresAt: int,
    claimedAt: Option<int>, claimedKey: Option<string>)

  datatype Notification = Notification(
    notificationId: string, inviteId: string, identifierHash: string, displayHint: string, amountSats: nat,
    claimedAt: int, claimedKey: string, read: bool)

  datatype State = State(invites: map<string, InviteRecord>, notifications: seq<Notification>)

  datatype Error = NotFound | HasExpired | AlreadyClaimed | WasCancelled | CannotCancelClaimed | SaveFailed

  // ---------------------------------------------------------------------------------------
  // What each call does
  // ---------------------------------------------------------------------------------------

  /** A created invite counts as expired once its time has come. */
  function Refresh(record: InviteRecord, now: int): InviteRecord {
    if record.status.Created? && now >= record.expiresAt then record.(status := Expired) else record
  }

  function RefreshAll(invites: map<string, InviteRecord>, now: int): map<string, InviteRecord> {
    map id | id in invites :: Refresh(invites[id], now)
  }

  function Saved<T>(value: T, saves: bool): Result<T, Error> {
    if saves then Ok(value) else Err(SaveFailed)
  }

  function Notice(record: InviteRecord, id: string, now: int, key: string, notificationId: string): Notification {
    Notification(notificationId, id, record.identifierHash, record.displayHint, record.amountSats, now, key, false)
  }

  function Claiming(state: State, now: int, id: string, key: string, notificationId: string, saves: bool):
    (State, Result<InviteRecord, Error>)
  {
    if id !in state.invites then (state, Err(NotFound))
    else
      var record := state.invites[id];
      if now >= record.expiresAt then
        (state.(invites := state.invites[id := record.(status := Expired)]), Err(HasExpired))
      else if record.status.Claimed? then (state, Err(AlreadyClaimed))
      else if record.status.Cancelled? then (state, Err(WasCancelled))
      else
        var claimed := record.(status := Claimed, claimedAt := Some(now), claimedKey := Some(key));
        (State(state.invites[id := claimed], state.notifications + [Notice(record, id, now, key, notificationId)]),
         Saved(claimed, saves))
  }

  function Cancelling(state: State, id: string, saves: bool): (State, Result<InviteRecord, Error>) {
    if id !in state.invites then (state, Err(NotFound))
    else
      var record := state.invites[id];
      if record.status.Claimed? then (state, Err(CannotCancelClaimed))
      else
        var cancelled := record.(status := Cancelled);
        (state.(invites := state.invites[id := cancelled]), Saved(cancelled, saves))
  }

  /** The first notification with this id is marked. */
  function MarkFirst(notifications: seq<Notification>, notificationId: string): Option<seq<Notification>> {
    if notifications == [] then None
    else if notifications[0].notificationId == notificationId then
      Some([notifications[0].(read := true)] + notifications[1..])
    else
      var rest := MarkFirst(notifications[1..], notificationId);
      if rest.None? then None else Some([notifications[0]] + rest.value)
  }

  function MarkAll(notifications: seq<Notification>): (marked: seq<Notification>)
    ensures |marked| == |notifications|
    ensures forall i | 0 <= i < |marked| :: marked[i] == notifications[i].(read := true)
  {
    if notifications == [] then []
    else MarkAll(notifications[..|notifications| - 1]) + [notifications[|notifications| - 1].(read := true)]
  }

  // ---------------------------------------------------------------------------------------
  // Newest first
  // ---------------------------------------------------------------------------------------

  ghost predicate NewestFirst(list: seq<InviteRecord>) {
    forall i, j :: 0 <= i < j < |list| ==> list[i].createdAt >= list[j].createdAt
  }

  function InsertNewest(record: InviteRecord, list: seq<InviteRecord>): seq<InviteRecord> {
    if list == [] then [record]
    else if record.createdAt <= list[|list| - 1].createdAt then list + [record]
    else InsertNewest(record, list[..|list| - 1]) + [list[|list| - 1]]
  }

  /** The stable sort by decreasing creation time. */
  function Sorted(list: seq<InviteRecord>): seq<InviteRecord> {
    if list == [] then [] else InsertNewest(list[|list| - 1], Sorted(list[..|list| - 1]))
  }

  ghost predicate AllFrom(list: seq<InviteRecord>, time: int) {
    forall i | 0 <= i < |list| :: list[i].createdAt >= time
  }

  lemma AppendOldest(list: seq<InviteRecord>, record: InviteRecord)
    ensures NewestFirst(list + [record]) <==> NewestFirst(list) && AllFrom(list, record.createdAt)
  {
    var all := list + [record];
    if NewestFirst(all) {
      assert forall i | 0 <= i < |list| :: all[i] == list[i] && all[|list|] == record;
    }
  }

  lemma AppendFrom(list: seq<InviteRecord>, record: InviteRecord, time: int)
    ensures AllFrom(list + [record], time) <==> AllFrom(list, time) && record.createdAt >= time
  {
    var all := list + [record];
    assert all[|list|] == record;
    assert forall i | 0 <= i < |list| :: all[i] == list[i];
  }

  lemma InsertStep(record: InviteRecord, list: seq<InviteRecord>)
    requires list != []
    ensures var front, last := list[..|list| - 1], list[|list| - 1];
            list == front + [last]
            && InsertNewest(record, list)
               == if record.createdAt <= last.createdAt then list + [record] else InsertNewest(record, front) + [last]
  {
  }

  lemma {:induction false} InsertFrom(record: InviteRecord, list: seq<InviteRecord>, time: int)
    requires AllFrom(list, time) && record.createdAt >= time
    ensures AllFrom(InsertNewest(record, list), time)
    decreases |list|
  {
    if list != [] {
      hide InsertNewest, AllFrom;
      InsertStep(record, list);
      var front, last := list[..|list| - 1], list[|list| - 1];
      AppendFrom(front, last, time);
      AppendFrom(list, record, time);
      InsertFrom(record, front, time);
      AppendFrom(InsertNewest(record, front), last, time);
    }
  }

  lemma AllFromLess(list: seq<InviteRecord>, time: int, earlier: int)
    requires AllFrom(list, time) && earlier <= time
    ensures AllFrom(list, earlier)
  {
  }

  lemma {:induction false} InsertOrdered(record: InviteRecord, list: seq<InviteRecord>)
    requires NewestFirst(list)
    ensures NewestFirst(InsertNewest(record, list))
    decreases |list|
  {
    if list != [] {
      hide InsertNewest, NewestFirst, AllFrom;
      InsertStep(record, list);
      var front, last := list[..|list| - 1], list[|list| - 1];
      AppendOldest(front, last);
      if record.createdAt <= last.createdAt {
        AllFromLess(front, last.createdAt, record.createdAt);
        AppendFrom(front, last, record.createdAt);
        AppendOldest(list, record);
      } else {
        InsertOrdered(record, front);
        InsertFrom(record, front, last.createdAt);
        AppendOldest(InsertNewest(record, front), last);
      }
    }
  }

  lemma {:induction false} InsertKeeps(record: InviteRecord, list: seq<InviteRecord>)
    ensures multiset(InsertNewest(record, list)) == multiset(list) + multiset{record}
    decreases |list|
  {
    if list != [] {
      hide InsertNewest;
      InsertStep(record, list);
      var front, last := list[..|list| - 1], list[|list| - 1];
      InsertKeeps(record, front);
      SplitLast(list);
    }
  }

  lemma SortedStep(list: seq<InviteRecord>)
    requires list != []
    ensures Sorted(list) == InsertNewest(list[|list| - 1], Sorted(list[..|list| - 1]))
  {
  }

  lemma SplitLast(list: seq<InviteRecord>)
    requires list != []
    ensures multiset(list) == multiset(list[..|list| - 1]) + multiset{list[|list| - 1]}
  {
    hide *;
    assert list == list[..|list| - 1] + [list[|list| - 1]];
  }

  lemma {:induction false} SortedKeeps(list: seq<InviteRecord>)
    ensures multiset(Sorted(list)) == multiset(list)
    ensures NewestFirst(Sorted(list))
    decreases |list|
  {
    if list != [] {
      hide Sorted, InsertNewest, NewestFirst;
      SortedStep(list);
      SplitLast(list);
      var front, last := list[..|list| - 1], list[|list| - 1];
      SortedKeeps(front);
      InsertOrdered(last, Sorted(front));
      InsertKeeps(last, Sorted(front));
    }
  }

  // ---------------------------------------------------------------------------------------
  // What listing and marking leave
  // ---------------------------------------------------------------------------------------

  /** Every record is stored under its own id. */
  ghost predicate Keyed(invites: map<string, InviteRecord>) {
    forall id | id in invites :: invites[id].inviteId == id
  }

  /** Every stored record occurs exactly once, and nothing else does. */
  ghost predicate ListsExactly(list: seq<InviteRecord>, invites: map<string, InviteRecord>) {
    forall x: InviteRecord :: multiset(list)[x] == if x.inviteId in invites && invites[x.inviteId] == x then 1 else 0
  }

  /** All invites but those in `left` are refreshed. */
  ghost predicate PartlyRefreshed(before: map<string, InviteRecord>, now: map<string, InviteRecord>,
          left: set<string>, time: int) {
    before.Keys == now.Keys
    && forall id | id in before :: now[id] == if id in left then before[id] else Refresh(before[id], time)
  }

  lemma RefreshOne(before: map<string, InviteRecord>, was: map<string, InviteRecord>, left: set<string>, id: string,
          time: int)
    requires id in before && id !in left && PartlyRefreshed(before, was, left + {id}, time)
    ensures PartlyRefreshed(before, was[id := Refresh(before[id], time)], left, time)
  {
    hide Refresh;
  }

  lemma NothingRefreshed(before: map<string, InviteRecord>, time: int)
    ensures PartlyRefreshed(before, before, before.Keys, time)
  {
  }

  lemma NotYetRefreshed(before: map<string, InviteRecord>, now: map<string, InviteRecord>, left: set<string>,
          id: string, time: int)
    requires PartlyRefreshed(before, now, left, time) && id in left && left <= before.Keys
    ensures id in now && now[id] == before[id]
  {
  }

  lemma ChangeShows(before: map<string, InviteRecord>, was: map<string, InviteRecord>, id: string, record: InviteRecord)
    requires id in before && id in was && was[id] == before[id]
    ensures was[id := record] == before <==> was == before && record == before[id]
  {
    var after := was[id := record];
    if after == before {
      assert forall k :: k in was <==> k in after;
      assert forall k | k in was :: was[k] == if k == id then before[id] else after[k];
    }
  }

  lemma FullyRefreshed(before: map<string, InviteRecord>, now: map<string, InviteRecord>, time: int)
    requires PartlyRefreshed(before, now, {}, time)
    ensures now == RefreshAll(before, time)
  {
    hide Refresh;
  }

  lemma RefreshKeyed(invites: map<string, InviteRecord>, now: int)
    requires Keyed(invites)
    ensures Keyed(RefreshAll(invites, now))
  {
  }

  lemma MarkNothing(list: seq<Notification>)
    ensures MarkAll(list[..0]) + list[0..] == list
  {
  }

  lemma MarkOne(list: seq<Notification>, i: nat)
    requires i < |list|
    ensures (MarkAll(list[..i]) + list[i..])[i := list[i].(read := true)] == MarkAll(list[..i + 1]) + list[i + 1..]
    ensures (MarkAll(list[..i]) + list[i..])[i] == list[i]
  {
    assert list[..i + 1][..i] == list[..i];
    assert list[i..][0] == list[i] && list[i..][1..] == list[i + 1..];
    assert (MarkAll(list[..i]) + list[i..])[i := list[i].(read := true)]
        == MarkAll(list[..i]) + [list[i].(read := true)] + list[i + 1..];
  }

  lemma MarkedAfterNothing(rest: Option<seq<Notification>>)
    ensures MarkedAfter([], rest) == rest
  {
    if rest.Some? {
      assert [] + rest.value == rest.value;
    }
  }

  function MarkedAfter(before: seq<Notification>, rest: Option<seq<Notification>>): Option<seq<Notification>> {
    if rest.None? then None else Some(before + rest.value)
  }

  lemma MarkPasses(list: seq<Notification>, i: nat, notificationId: string)
    requires i < |list| && list[i].notificationId != notificationId
    ensures MarkedAfter(list[..i], MarkFirst(list[i..], notificationId))
            == MarkedAfter(list[..i + 1], MarkFirst(list[i + 1..], notificationId))
  {
    assert list[i..][0] == list[i] && list[i..][1..] == list[i + 1..];
    var rest := MarkFirst(list[i + 1..], notificationId);
    if rest.Some? {
      assert list[..i] + ([list[i]] + rest.value) == list[..i + 1] + rest.value;
    }
  }

  lemma MarkMisses(list: seq<Notification>, notificationId: string)
    ensures MarkedAfter(list, MarkFirst(list[|list|..], notificationId)) == None
    ensures list[..|list|] == list
  {
  }

  lemma MarkHits(list: seq<Notification>, i: nat, notificationId: string)
    requires i < |list| && list[i].notificationId == notificationId
    ensures MarkedAfter(list[..i], MarkFirst(list[i..], notificationId)) == Some(list[i := list[i].(read := true)])
  {
    assert list[i..][0] == list[i] && list[i..][1..] == list[i + 1..];
    assert list[..i] + ([list[i].(read := true)] + list[i + 1..]) == list[i := list[i].(read := true)];
  }

  /** The values of a map, in the arbitrary order of its keys. */
  method CollectValues(invites: map<string, InviteRecord>) returns (list: seq<InviteRecord>)
    requires Keyed(invites)
    ensures ListsExactly(list, invites)
  {
    list := [];
    var left := invites.Keys;
    while left != {}
      invariant left <= invites.Keys
      invariant forall x: InviteRecord ::
                  multiset(list)[x]
                  == if x.inviteId in invites && x.inviteId !in left && invites[x.inviteId] == x then 1 else 0
      decreases |left|
    {
      var id :| id in left;
      left := left - {id};
      list := list + [invites[id]];
    }
  }

  // ---------------------------------------------------------------------------------------
  // The store
  // ---------------------------------------------------------------------------------------

  class InviteStore {
    var invites: map<string, InviteRecord>
    var notifications: seq<Notification>

    ghost predicate Valid()
      reads this
    {
      Keyed(invites)
    }

    ghost function Contents(): State
      reads this
    {
      State(invites, notifications)
    }

    constructor ()
      ensures Valid() && Contents() == State(map[], [])
    {
      invites := map[];
      notifications := [];
    }

    method Insert(record: InviteRecord, saves: bool) returns (r: Result<(), Error>)
      requires Valid()
      modifies this
      ensures Valid() && Contents() == State(old(invites)[record.inviteId := record], old(notifications))
      ensures r == Saved((), saves)
    {
      invites := invites[record.inviteId := record];
      r := Saved((), saves);
    }

    /** Shows a record as `List` would store it at the same time; the store stays as it is. */
    method Get(id: string, now: int) returns (r: Option<InviteRecord>)
      ensures r == if id in RefreshAll(invites, now) then Some(RefreshAll(invites, now)[id]) else None
    {
      if id !in invites {
        return None;
      }
      var record := invites[id];
      if record.status == Created && now >= record.expiresAt {
        return Some(record.(status := Expired));
      }
      return Some(record);
    }

    /** Stores every overdue created invite as expired. */
    method RefreshStored(now: int) returns (modified: bool)
      modifies this
      ensures Contents() == State(RefreshAll(old(invites), now), old(notifications))
      ensures modified <==> invites != old(invites)
    {
      hide PartlyRefreshed, RefreshAll;
      modified := false;
      ghost var before := invites;
      NothingRefreshed(before, now);
      var left := invites.Keys;
      while left != {}
        invariant left <= before.Keys && notifications == old(notifications)
        invariant PartlyRefreshed(before, invites, left, now)
        invariant modified <==> invites != before
        decreases |left|
      {
        var id :| id in left;
        ghost var was, leftBefore := invites, left;
        NotYetRefreshed(before, was, left, id, now);
        left := left - {id};
        assert left + {id} == leftBefore;
        var record := invites[id];
        ChangeShows(before, was, id, Refresh(record, now));
        if record.status == Created && now >= record.expiresAt {
          invites := invites[id := record.(status := Expired)];
          modified := true;
        }
        assert invites == was[id := Refresh(record, now)];
        RefreshOne(before, was, left, id, now);
      }
      FullyRefreshed(before, invites, now);
    }

    method List(now: int, saves: bool) returns (r: Result<seq<InviteRecord>, Error>)
      requires Valid()
      modifies this
      ensures Valid() && Contents() == State(RefreshAll(old(invites), now), old(notifications))
      ensures r.Ok? <==> saves || RefreshAll(old(invites), now) == old(invites)
      ensures r.Err? ==> r.error == SaveFailed
      ensures r.Ok? ==> NewestFirst(r.value) && ListsExactly(r.value, invites)
    {
      var modified := RefreshStored(now);
      RefreshKeyed(old(invites), now);
      if modified && !saves {
        return Err(SaveFailed);
      }
      var list := CollectValues(invites);
      SortedKeeps(list);
      return Ok(Sorted(list));
    }

    method Claim(now: int, id: string, key: string, notificationId: string, saves: bool)
      returns (r: Result<InviteRecord, Error>)
      requires Valid()
      modifies this
      ensures Valid()
      ensures (Contents(), r) == Claiming(old(Contents()), now, id, key, notificationId, saves)
    {
      if id !in invites {
        return Err(NotFound);
      }
      var record := invites[id];
      if now >= record.expiresAt {
        invites := invites[id := record.(status := Expired)];
        return Err(HasExpired);
      }
      if record.status == Claimed {
        return Err(AlreadyClaimed);
      }
      if record.status == Cancelled {
        return Err(WasCancelled);
      }
      record := record.(status := Claimed, claimedAt := Some(now), claimedKey := Some(key));
      invites := invites[id := record];
      var notification := Notification(notificationId, id, record.identifierHash, record.displayHint,
                                       record.amountSats, now, key, false);
      notifications := notifications + [notification];
      if !saves {
        return Err(SaveFailed);
      }
      return Ok(record);
    }

    method Cancel(id: string, saves: bool) returns (r: Result<InviteRecord, Error>)
      requires Valid()
      modifies this
      ensures Valid()
      ensures (Contents(), r) == Cancelling(old(Contents()), id, saves)
    {
      if id !in invites {
        return Err(NotFound);
      }
      var record := invites[id];
      if record.status == Claimed {
        return Err(CannotCancelClaimed);
      }
      record := record.(status := Cancelled);
      invites := invites[id := record];
      r := Saved(record, saves);
    }

    method MarkNotificationRead(notificationId: string, saves: bool) returns (r: Result<(), Error>)
      requires Valid()
      modifies this
      ensures Valid() && invites == old(invites)
      ensures var marked := MarkFirst(old(notifications), notificationId);
              if marked.Some? then notifications == marked.value && r == Saved((), saves)
              else notifications == old(notifications) && r == Err(NotFound)
    {
      hide MarkFirst, MarkedAfter;
      var i := 0;
      MarkedAfterNothing(MarkFirst(notifications, notificationId));
      assert notifications[0..] == notifications && notifications[..0] == [];
      while i < |notifications| && notifications[i].notificationId != notificationId
        invariant i <= |notifications| && Contents() == old(Contents())
        invariant MarkFirst(notifications, notificationId)
                  == MarkedAfter(notifications[..i], MarkFirst(notifications[i..], notificationId))
      {
        MarkPasses(notifications, i, notificationId);
        i := i + 1;
      }
      if i == |notifications| {
        MarkMisses(notifications, notificationId);
        return Err(NotFound);
      }
      MarkHits(notifications, i, notificationId);
      notifications := notifications[i := notifications[i].(read := true)];
      r := Saved((), saves);
    }

    method MarkAllNotificationsRead(saves: bool) returns (r: Result<(), Error>)
      requires Valid()
      modifies this
      ensures Valid() && Contents() == State(old(invites), MarkAll(old(notifications)))
      ensures r == Saved((), saves)
    {
      hide MarkAll;
      var list := notifications;
      MarkNothing(notifications);
      for i := 0 to |list|
        invariant Contents() == old(Contents()) && |list| == |notifications|
        invariant list == MarkAll(notifications[..i]) + notifications[i..]
      {
        MarkOne(notifications, i);
        list := list[i := list[i].(read := true)];
      }
      assert notifications[..|notifications|] == notifications && notifications[|notifications|..] == [];
      notifications := list;
      r := Saved((), saves);
    }
  }
}
