/** The socket gateway: its handlers read and write Redis and send to sockets, each as one step. */
module AppsocketHandler {
  import opened Wrappers
  import opened Decimal
  import opened RedisKeys
  import opened GroupStore
  import opened Sessions
  import opened TripIndex
  import opened Delivery

  /** A message sent to a socket. */
  datatype Emit = Emit(clientId: ClientId, channel: string)

  datatype Location = Location(lat: real, lon: real)

  const RECEIVE_CHAT_MESSAGE := "receive-message"
  const SEND_CHAT_MESSAGE_ACK := "send-message-ack"
  const RIDER_LOCATION_UPDATES := "rider-location-updates"

  class Handler {
    /** Redis, one map for each kind of key; `RenderInjective` is why they can be kept apart. */
    var sockets: map<string, ClientId>
    var users: map<ClientId, string>
    var trips: Index
    var groupMembers: map<string, seq<CacheEntry>>
    var riderLocations: map<string, Location>
    var riderTrails: map<string, seq<Location>>

    /** What is sent out: usage events, socket messages, rider positions for the database and group messages
      for the chat service. */
    var usage: seq<Usage>
    var sent: seq<Emit>
    var saved: seq<(string, Location)>
    var chats: seq<(Option<nat>, string)>

    ghost function Session(): Session
      reads this
    {
      Sessions.Session(sockets, users, usage)
    }

    constructor (groupMembers: map<string, seq<CacheEntry>>)
      ensures Session() == Sessions.EMPTY && trips == Replay([]) && this.groupMembers == groupMembers
      ensures riderLocations == map[] && riderTrails == map[] && sent == [] && saved == [] && chats == []
    {
      sockets, users, trips, riderLocations, riderTrails := map[], map[], map[], map[], map[];
      this.groupMembers := groupMembers;
      usage, sent, saved, chats := [], [], [], [];
    }

    method HandleSubscribeUser(client: ClientId, userID: string)
      modifies this`sockets, this`users, this`usage
      ensures Session() == Sessions.Step(old(Session()), Subscribe(client, userID))
    {
      if userID != "" {
        var existClientId := Get(sockets, userID);
        if existClientId.Some? && existClientId.value != client {
          users := users - {existClientId.value};
        }
        if existClientId.None? {
          usage := usage + [Usage(userID, client, 1)];
        }
        sockets := sockets[userID := client];
        users := users[client := userID];
      }
    }

    method HandleUnsubscribeUser(client: ClientId)
      modifies this`sockets, this`users
      ensures Session() == Sessions.Step(old(Session()), Unsubscribe(client))
    {
      var socketUserId := if client in users then users[client] else NOBODY;
      sockets := sockets - {socketUserId};
      users := users - {client};
    }

    method HandleDisconnect(client: ClientId)
      modifies this`sockets, this`users, this`usage
      ensures Session() == Sessions.Step(old(Session()), Disconnect(client))
    {
      var socketUserId := Get(users, client);
      if socketUserId.Some? && socketUserId.value != "" {
        sockets := sockets - {socketUserId.value};
        usage := usage + [Usage(socketUserId.value, client, 0)];
      }
      users := users - {client};
    }

    /** Sends to the user's registered socket, and says whether there was one. */
    method PublishToClient(userId: string, channel: string) returns (done: bool)
      modifies this`sent
      ensures done <==> Target(Session(), userId).Some?
      ensures sent == old(sent) + if done then [Emit(Target(Session(), userId).value, channel)] else []
    {
      if userId != "" && userId in sockets {
        sent := sent + [Emit(sockets[userId], channel)];
        done := true;
      } else {
        done := false;
      }
    }

    /** The part of `notifyTripDetail` that keeps the trip index. */
    method NotifyTripDetail(message: Notification)
      modifies this`trips
      ensures trips == Notified(old(trips), message)
    {
      var tripKey := None;
      if message.riderId != "" && message.driverId != "" {
        tripKey := Some(TripKey(message.riderId, message.driverId));
      }
      if message.kind == "trip_request" {
      } else if message.kind in TERMINAL {
        if tripKey.Some? {
          trips := trips - {tripKey.value};
        }
      } else if tripKey.Some? {
        trips := trips[tripKey.value := InfoOf(message)];
      }
    }

    /** A rider's position is stored; it goes to the drivers of the rider's trips if the lookup finds any trip,
      and onto the trail of each, and otherwise to the database unless it is the one stored before. */
    method HandleCustomerUpdateState(riderId: string, position: Location)
      modifies this`riderLocations, this`riderTrails, this`sent, this`saved
      ensures riderId == "" ==> riderLocations == old(riderLocations) && sent == old(sent) && saved == old(saved)
                                && riderTrails == old(riderTrails)
      ensures riderId != "" ==> riderLocations == old(riderLocations)[riderId := position]
      ensures riderId != "" ==>
        var found := Matched(trips, RiderPattern(riderId));
        && SentToDrivers(old(sent), trips, Session(), found, sent)
        && (forall c: ClientId :: Emit(c, RIDER_LOCATION_UPDATES) in sent[|old(sent)|..] <==>
              LocationReaches(trips, Session(), riderId, c))
        && Trailed(old(riderTrails), trips, found, position, riderTrails)
        && saved == old(saved)
           + if found != {} || Get(old(riderLocations), riderId) == Some(position) then [] else [(riderId, position)]
    {
      hide TowardsSocket, OnTrip;
      if riderId != "" {
        var existLoc := Get(riderLocations, riderId);
        riderLocations := riderLocations[riderId := position];
        var scanList := Matched(trips, RiderPattern(riderId));
        if scanList != {} {
          PublishToDrivers(scanList, position);
        } else {
          NothingFound(sent, trips, Session(), riderTrails, position);
          if existLoc != Some(position) {
            saved := saved + [(riderId, position)];
          }
        }
        assert Matched(trips, RiderPattern(riderId)) == scanList;
        forall c: ClientId
          ensures Emit(c, RIDER_LOCATION_UPDATES) in sent[|old(sent)|..] <==>
                  LocationReaches(trips, Session(), riderId, c)
        {
          SentIfReached(old(sent), trips, Session(), riderId, sent, c);
        }
      }
    }

    /** One message for each record found, to its driver, and one position on the trail of its trip; in no
      particular order. */
    method PublishToDrivers(scanList: set<string>, position: Location)
      requires scanList <= trips.Keys
      modifies this`sent, this`riderTrails
      ensures SentToDrivers(old(sent), trips, Session(), scanList, sent)
      ensures Trailed(old(riderTrails), trips, scanList, position, riderTrails)
    {
      ghost var before, trails := sent, riderTrails;
      var left := scanList;
      NothingFound(before, trips, Session(), riderTrails, position);
      while left != {}
        invariant left <= scanList && unchanged(this`sockets) && unchanged(this`trips)
        invariant SentToDrivers(before, trips, Session(), scanList - left, sent)
        invariant Trailed(trails, trips, scanList - left, position, riderTrails)
        decreases left
      {
        hide SentToDrivers, Trailed;
        var dataKey :| dataKey in left;
        ghost var already, trailed, done := sent, riderTrails, scanList - left;
        var scanObject := trips[dataKey];
        if scanObject.driverId != "" {
          UpdateTripLocation(scanObject.tripId, position);
          var published := PublishToClient(scanObject.driverId, RIDER_LOCATION_UPDATES);
        }
        SentToOneMore(before, trips, Session(), done, dataKey, already, sent);
        TrailedOneMore(trails, trips, done, dataKey, position, trailed, riderTrails);
        left := left - {dataKey};
        assert scanList - left == done + {dataKey};
      }
      assert scanList - left == scanList;
    }

    /** `updateTripLocation` for a rider: the trail of one trip grows by the position. */
    method UpdateTripLocation(tripId: string, position: Location)
      modifies this`riderTrails
      ensures forall t: string ::
                Trail(riderTrails, t) == Trail(old(riderTrails), t) + if t == tripId then [position] else []
    {
      riderTrails := riderTrails[tripId := Trail(riderTrails, tripId) + [position]];
    }

    /** `handleSendChatMessage` for a message to a group: a copy goes to the chat service, the sender gets an
      acknowledgement, and every cached member that is neither deleted nor the sender is published to.
      `senderText` is the sender's id as JavaScript writes the number it reads it as. */
    method HandleSendChatMessage(groupId: string, sender: Option<nat>, senderText: string)
      requires sender.Some? ==> senderText == Print(sender.value)
      modifies this`sent, this`chats
      ensures chats == old(chats) + [(sender, groupId)]
      ensures var acknowledged := old(sent) + if Target(Session(), senderText).Some?
                                              then [Emit(Target(Session(), senderText).value, SEND_CHAT_MESSAGE_ACK)]
                                              else [];
              Extends(acknowledged, FanOut(groupMembers, Session(), groupId, sender), sent)
    {
      hide Recipients, Registrations;
      chats := chats + [(sender, groupId)];
      var acknowledged := PublishToClient(senderText, SEND_CHAT_MESSAGE_ACK);
      SendToGroup(groupId, sender);
    }

    method SendToGroup(groupId: string, sender: Option<nat>)
      modifies this`sent
      ensures Extends(old(sent), FanOut(groupMembers, Session(), groupId, sender), sent)
    {
      hide Recipients, Registrations;
      if groupId in groupMembers {
        var members := groupMembers[groupId];
        ghost var before, session := sent, Session();
        ghost var reached: seq<ClientId> := [];
        assert members[..0] == [];
        NobodyReached(session, sender);
        for k := 0 to |members|
          invariant Session() == session
          invariant reached == Registrations(session, Recipients(members[..k], sender))
          invariant Extends(before, reached, sent)
        {
          var user := members[k];
          assert members[..k + 1] == members[..k] + [user];
          RecipientsSnoc(members[..k], user, sender);
          if user.isDeleted.None? && sender != Some(user.userId) {
            RegistrationsSnoc(session, Recipients(members[..k], sender), user.userId);
            var done := PublishToClient(Print(user.userId), RECEIVE_CHAT_MESSAGE);
            reached := reached + (if done then [Target(session, Print(user.userId)).value] else []);
          }
        }
        assert members[..|members|] == members;
      }
    }
  }

  // ---------- Positions sent to drivers ----------

  function Trail(trails: map<string, seq<Location>>, tripId: string): seq<Location> {
    if tripId in trails then trails[tripId] else []
  }

  /** The records among the keys whose driver is reached on the socket. */
  function TowardsSocket(index: Index, session: Session, keys: set<string>, c: ClientId): set<string> {
    set k | k in keys && k in index && Target(session, index[k].driverId) == Some(c)
  }

  /** The records among the keys that are of the trip and name a driver. */
  function OnTrip(index: Index, keys: set<string>, tripId: string): set<string> {
    set k | k in keys && k in index && index[k].tripId == tripId && index[k].driverId != ""
  }

  /** `after` is `before` followed by messages to drivers only, to each socket as many as there are records
    whose driver is reached on it. */
  ghost predicate SentToDrivers(
      before: seq<Emit>, index: Index, session: Session, keys: set<string>, after: seq<Emit>)
  {
    && |before| <= |after| && after[..|before|] == before
    && (forall e <- after[|before|..] :: e.channel == RIDER_LOCATION_UPDATES)
    && forall c: ClientId ::
         multiset(after[|before|..])[Emit(c, RIDER_LOCATION_UPDATES)] == |TowardsSocket(index, session, keys, c)|
  }

  /** Each trail has grown by the position, once for every record of its trip. */
  ghost predicate Trailed(
      before: map<string, seq<Location>>, index: Index, keys: set<string>, position: Location,
      after: map<string, seq<Location>>)
  {
    forall tripId: string ::
      Trail(after, tripId) == Trail(before, tripId) + Copies(position, |OnTrip(index, keys, tripId)|)
  }

  function Copies(position: Location, n: nat): seq<Location> {
    seq(n, i => position)
  }

  lemma NothingFound(
      sent: seq<Emit>, index: Index, session: Session, trails: map<string, seq<Location>>, position: Location)
    ensures SentToDrivers(sent, index, session, {}, sent)
    ensures Trailed(trails, index, {}, position, trails)
  {
    assert sent[|sent|..] == [];
    assert forall c: ClientId :: TowardsSocket(index, session, {}, c) == {};
    assert forall tripId: string :: OnTrip(index, {}, tripId) == {};
  }

  lemma SentToOneMore(
      before: seq<Emit>, index: Index, session: Session, keys: set<string>, k: string, sent: seq<Emit>, after: seq<Emit>)
    requires SentToDrivers(before, index, session, keys, sent) && k in index && k !in keys
    requires var target := Target(session, index[k].driverId);
             after == sent + if target.Some? then [Emit(target.value, RIDER_LOCATION_UPDATES)] else []
    ensures SentToDrivers(before, index, session, keys + {k}, after)
  {
    hide TowardsSocket, Target;
    var target := Target(session, index[k].driverId);
    var news := sent[|before|..];
    var more := if target.Some? then [Emit(target.value, RIDER_LOCATION_UPDATES)] else [];
    assert after[|before|..] == news + more;
    forall c: ClientId
      ensures multiset(news + more)[Emit(c, RIDER_LOCATION_UPDATES)]
           == |TowardsSocket(index, session, keys + {k}, c)|
    {
      TowardsOneMore(index, session, keys, k, c);
      assert multiset(news + more)[Emit(c, RIDER_LOCATION_UPDATES)]
          == multiset(news)[Emit(c, RIDER_LOCATION_UPDATES)] + if target == Some(c) then 1 else 0;
    }
  }

  lemma TowardsOneMore(index: Index, session: Session, keys: set<string>, k: string, c: ClientId)
    requires k in index && k !in keys
    ensures |TowardsSocket(index, session, keys + {k}, c)|
         == |TowardsSocket(index, session, keys, c)| + if Target(session, index[k].driverId) == Some(c) then 1 else 0
  {
    assert TowardsSocket(index, session, keys + {k}, c)
        == TowardsSocket(index, session, keys, c) + if Target(session, index[k].driverId) == Some(c) then {k} else {};
  }

  lemma TrailedOneMore(
      before: map<string, seq<Location>>, index: Index, keys: set<string>, k: string, position: Location,
      trails: map<string, seq<Location>>, after: map<string, seq<Location>>)
    requires Trailed(before, index, keys, position, trails) && k in index && k !in keys
    requires forall t: string ::
               Trail(after, t) == Trail(trails, t) + if t == index[k].tripId && index[k].driverId != "" then [position] else []
    ensures Trailed(before, index, keys + {k}, position, after)
  {
    hide OnTrip, Copies, Trail;
    forall tripId: string
      ensures Trail(after, tripId) == Trail(before, tripId) + Copies(position, |OnTrip(index, keys + {k}, tripId)|)
    {
      OnTripOneMore(index, keys, k, tripId);
      assert Trail(trails, tripId) == Trail(before, tripId) + Copies(position, |OnTrip(index, keys, tripId)|);
      OneCopyMore(position, |OnTrip(index, keys, tripId)|);
    }
  }

  lemma OneCopyMore(position: Location, n: nat)
    ensures Copies(position, n + 1) == Copies(position, n) + [position]
  {
  }

  lemma OnTripOneMore(index: Index, keys: set<string>, k: string, tripId: string)
    requires k in index && k !in keys
    ensures |OnTrip(index, keys + {k}, tripId)|
         == |OnTrip(index, keys, tripId)| + if index[k].tripId == tripId && index[k].driverId != "" then 1 else 0
  {
    assert OnTrip(index, keys + {k}, tripId)
        == OnTrip(index, keys, tripId) + if index[k].tripId == tripId && index[k].driverId != "" then {k} else {};
  }

  /** The sockets sent to are those the rider's location reaches. */
  lemma SentIfReached(
      before: seq<Emit>, index: Index, session: Session, riderId: string, after: seq<Emit>, c: ClientId)
    requires SentToDrivers(before, index, session, Matched(index, RiderPattern(riderId)), after)
    ensures Emit(c, RIDER_LOCATION_UPDATES) in after[|before|..] <==> LocationReaches(index, session, riderId, c)
  {
    var keys := Matched(index, RiderPattern(riderId));
    assert Emit(c, RIDER_LOCATION_UPDATES) in after[|before|..] <==> TowardsSocket(index, session, keys, c) != {};
    if LocationReaches(index, session, riderId, c) {
      var k :| k in keys && Target(session, index[k].driverId) == Some(c);
      assert k in TowardsSocket(index, session, keys, c);
    }
    if k :| k in TowardsSocket(index, session, keys, c) {
      assert k in keys;
    }
  }

  // ---------- Messages sent to groups ----------

  /** `after` is `before` followed by one chat message to each of the clients. */
  ghost predicate Extends(before: seq<Emit>, clients: seq<ClientId>, after: seq<Emit>) {
    && |after| == |before| + |clients|
    && after[..|before|] == before
    && forall i :: 0 <= i < |clients| ==> after[|before| + i] == Emit(clients[i], RECEIVE_CHAT_MESSAGE)
  }

  lemma NobodyReached(session: Session, sender: Option<nat>)
    ensures Registrations(session, Recipients([], sender)) == []
  {
  }

  lemma RecipientsSnoc(front: seq<CacheEntry>, last: CacheEntry, sender: Option<nat>)
    ensures Recipients(front + [last], sender)
         == if last.isDeleted.None? && sender != Some(last.userId)
            then Recipients(front, sender) + [last.userId] else Recipients(front, sender)
  {
    assert (front + [last])[..|front|] == front;
  }

  lemma RegistrationsSnoc(session: Session, users: seq<nat>, u: nat)
    ensures Registrations(session, users + [u])
         == Registrations(session, users)
          + (if Target(session, Print(u)).Some? then [Target(session, Print(u)).value] else [])
  {
    assert (users + [u])[..|users|] == users;
  }
}
