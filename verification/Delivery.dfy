/** Who is reached: group messages and rider locations, from the stored state to the sockets. */
module Delivery {
  import opened Wrappers
  import opened Decimal
  import opened RedisKeys
  import opened GroupStore
  import opened GroupInvariants
  import opened GroupEffects
  import opened GroupStaleness
  import opened Sessions
  import TripIndex

  // ---------- Group messages ----------

  /** The cached members a message goes to: not deleted and not its sender. `sender` is the sender's id as a
    number, if it is one. */
  function Recipients(entries: seq<CacheEntry>, sender: Option<nat>): seq<nat> {
    if entries == [] then []
    else
      var last := entries[|entries| - 1];
      Recipients(entries[..|entries| - 1], sender)
      + if last.isDeleted.None? && sender != Some(last.userId) then [last.userId] else []
  }

  /** The sockets registered for the given users, one for each user that has one. */
  function Registrations(session: Session, users: seq<nat>): seq<ClientId> {
    if users == [] then []
    else
      var target := Target(session, Print(users[|users| - 1]));
      Registrations(session, users[..|users| - 1]) + if target.Some? then [target.value] else []
  }

  /** The sockets a group message is sent to. */
  function FanOut(cache: map<string, seq<CacheEntry>>, session: Session, groupId: string, sender: Option<nat>)
    : seq<ClientId>
  {
    match Get(cache, groupId)
    case None => []
    case Some(entries) => Registrations(session, Recipients(entries, sender))
  }

  lemma ActiveEntrySnoc(front: seq<CacheEntry>, last: CacheEntry, u: nat)
    ensures ActiveInCache(front + [last], u)
       <==> ActiveInCache(front, u) || (last.userId == u && last.isDeleted.None?)
  {
    var entries := front + [last];
    if ActiveInCache(front, u) {
      var i :| 0 <= i < |front| && front[i].userId == u && front[i].isDeleted.None?;
      assert entries[i] == front[i];
    }
    if last.userId == u && last.isDeleted.None? {
      assert entries[|front|] == last;
    }
    if ActiveInCache(entries, u) {
      var i :| 0 <= i < |entries| && entries[i].userId == u && entries[i].isDeleted.None?;
      assert i < |front| ==> front[i] == entries[i];
    }
  }

  lemma {:induction false} RecipientsAre(entries: seq<CacheEntry>, sender: Option<nat>, u: nat)
    ensures u in Recipients(entries, sender) <==> ActiveInCache(entries, u) && sender != Some(u)
    decreases |entries|
  {
    hide ActiveInCache;
    if entries == [] {
      NoneActive(u);
    } else {
      var front, last := entries[..|entries| - 1], entries[|entries| - 1];
      RecipientsAre(front, sender, u);
      assert entries == front + [last];
      ActiveEntrySnoc(front, last, u);
    }
  }

  lemma NoneActive(u: nat)
    ensures !ActiveInCache([], u)
  {
  }

  lemma {:induction false} RegistrationsAre(session: Session, users: seq<nat>, c: ClientId)
    ensures c in Registrations(session, users) <==>
            exists u: nat :: u in users && Target(session, Print(u)) == Some(c)
    decreases |users|
  {
    if users != [] {
      var front, last := users[..|users| - 1], users[|users| - 1];
      RegistrationsAre(session, front, c);
      assert users == front + [last];
      if Target(session, Print(last)) == Some(c) {
        assert last in users;
      }
    }
  }

  /** A socket gets a group message exactly when it is registered for a member, not the sender, whom the cached
    list shows as active. */
  lemma FanOutReaches(s: Store, session: Session, g: string, sender: Option<nat>, c: ClientId)
    ensures c in FanOut(s.cache, session, g, sender) <==>
            exists u: nat :: CachedActive(s, g, u) && sender != Some(u) && Target(session, Print(u)) == Some(c)
  {
    if g in s.cache {
      var users := Recipients(s.cache[g], sender);
      RegistrationsAre(session, users, c);
      forall u: nat ensures u in users <==> CachedActive(s, g, u) && sender != Some(u) {
        RecipientsAre(s.cache[g], sender, u);
      }
    }
  }

  /** Removed members are never messaged: after any group operations and any session events, a socket that gets
    a group message is registered for a member the database counts as active, other than the sender. */
  lemma RemovedMembersAreNotMessaged(
      ops: seq<GroupStore.Op>, events: seq<Sessions.Op>, g: string, sender: Option<nat>, c: ClientId)
    requires FreshIds(ops)
    requires c in FanOut(GroupStore.Run(ops).cache, Sessions.Run(events), g, sender)
    ensures exists u: nat ::
              && Active(GroupStore.Run(ops), g, u) && sender != Some(u)
              && Target(Sessions.Run(events), Print(u)) == Some(c)
  {
    var s, session := GroupStore.Run(ops), Sessions.Run(events);
    FanOutReaches(s, session, g, sender, c);
    var u: nat :| CachedActive(s, g, u) && sender != Some(u) && Target(session, Print(u)) == Some(c);
    CachedActiveAreActive(ops, g, u);
  }

  /** Where the cached list is in step, as it is for the group last added to or removed from, every active
    member with a socket is reached as well. */
  lemma InSyncReachesAllActive(s: Store, session: Session, g: string, sender: Option<nat>, c: ClientId)
    requires InSync(s, g)
    ensures c in FanOut(s.cache, session, g, sender) <==>
            exists u: nat :: Active(s, g, u) && sender != Some(u) && Target(session, Print(u)) == Some(c)
  {
    FanOutReaches(s, session, g, sender, c);
    forall u: nat ensures CachedActive(s, g, u) <==> Active(s, g, u) {
      InSyncActive(s, g, u);
    }
  }

  /** After any group operations and session events, the sockets that get a message to a group with a cached list
    are those of its active members other than the sender, less those the list shows as deleted and who were
    added to some group since it was written. */
  lemma DeliveryExactly(
      ops: seq<GroupStore.Op>, events: seq<Sessions.Op>, g: string, sender: Option<nat>, c: ClientId)
    requires FreshIds(ops) && g in GroupStore.Run(ops).cache
    ensures c in FanOut(GroupStore.Run(ops).cache, Sessions.Run(events), g, sender) <==>
            exists u: nat ::
              && Active(GroupStore.Run(ops), g, u) && sender != Some(u)
              && !(u in AddedSince(ops, g) && DeletedInCache(GroupStore.Run(ops).cache[g], u))
              && Target(Sessions.Run(events), Print(u)) == Some(c)
  {
    hide Active, CachedActive, DeletedInCache, Print, FanOut;
    var s, session := GroupStore.Run(ops), Sessions.Run(events);
    FanOutReaches(s, session, g, sender, c);
    forall u: nat
      ensures CachedActive(s, g, u) <==>
              Active(s, g, u) && !(u in AddedSince(ops, g) && DeletedInCache(s.cache[g], u))
    {
      MissedExactly(ops, g, u);
      if CachedActive(s, g, u) {
        CachedActiveAreActive(ops, g, u);
      }
    }
  }

  // ---------- Rider locations ----------

  /** The sockets a rider's location goes to: those of the drivers in the records the rider pattern finds. */
  ghost predicate LocationReaches(index: TripIndex.Index, session: Session, riderId: string, c: ClientId) {
    exists k :: k in TripIndex.Matched(index, RiderPattern(riderId)) && Target(session, index[k].driverId) == Some(c)
  }

  /** A rider's location goes to exactly the registered sockets of the drivers the log binds to the rider. */
  lemma LocationReachesBoundDrivers(
      log: seq<TripIndex.Notification>, events: seq<Sessions.Op>, riderId: string, c: ClientId)
    requires TripIndex.IdsInLog(log) && IsId(riderId)
    ensures LocationReaches(TripIndex.Replay(log), Sessions.Run(events), riderId, c) <==>
            exists d :: && IsId(d) && TripIndex.BoundBy(log, riderId, d).Some?
                        && Target(Sessions.Run(events), d) == Some(c)
  {
    var index, session := TripIndex.Replay(log), Sessions.Run(events);
    TripIndex.IndexIsKeyedByRecord(log);
    if LocationReaches(index, session, riderId, c) {
      var k :| k in TripIndex.Matched(index, RiderPattern(riderId)) && Target(session, index[k].driverId) == Some(c);
      TripIndex.RiderLookupFindsTrips(log, riderId, k);
      var d :| IsId(d) && k == TripKey(riderId, d) && TripIndex.BoundBy(log, riderId, d).Some?;
      TripKeyInjective(index[k].riderId, index[k].driverId, riderId, d);
    }
    if d :| IsId(d) && TripIndex.BoundBy(log, riderId, d).Some? && Target(session, d) == Some(c) {
      var k := TripKey(riderId, d);
      TripIndex.RiderLookupFindsTrips(log, riderId, k);
      TripKeyInjective(index[k].riderId, index[k].driverId, riderId, d);
      assert k in TripIndex.Matched(index, RiderPattern(riderId));
    }
  }
}
