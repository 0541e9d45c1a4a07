/** The live-trip index: which rider and driver are on a trip together, kept by `notifyTripDetail` under keys
  that the location handlers look up with glob patterns. */
module TripIndex {
  import opened Wrappers
  import opened RedisKeys

  /** The record stored under a trip key; the fare fields travel along unread in `details`. */
  datatype TripInfo = TripInfo(driverId: string, riderId: string, tripId: string, details: string)

  /** A notification; an absent id is the empty text. */
  datatype Notification = Notification(
    kind: string, riderId: string, driverId: string, tripId: string, details: string)

  const TERMINAL := {"trip_completed", "rider_cancelled", "driver_cancelled", "no_drivers", "trip_expired"}

  type Index = map<string, TripInfo>

  predicate HasTripKey(n: Notification) {
    n.riderId != "" && n.driverId != ""
  }

  function InfoOf(n: Notification): TripInfo {
    TripInfo(n.driverId, n.riderId, n.tripId, n.details)
  }

  function Notified(index: Index, n: Notification): Index {
    if n.kind == "trip_request" || !HasTripKey(n) then index
    else if n.kind in TERMINAL then index - {TripKey(n.riderId, n.driverId)}
    else index[TripKey(n.riderId, n.driverId) := InfoOf(n)]
  }

  function Replay(log: seq<Notification>): Index {
    if log == [] then map[] else Notified(Replay(log[..|log| - 1]), log[|log| - 1])
  }

  // ---------- What the log says ----------

  predicate Concerns(n: Notification, riderId: string, driverId: string) {
    n.kind != "trip_request" && n.riderId == riderId && n.driverId == driverId
  }

  /** The position of the pair's last notification that is not a trip request. */
  function LastAbout(log: seq<Notification>, riderId: string, driverId: string): (last: Option<nat>)
    ensures last.Some? ==>
      && last.value < |log| && Concerns(log[last.value], riderId, driverId)
      && forall i :: last.value < i < |log| ==> !Concerns(log[i], riderId, driverId)
    ensures last.None? ==> forall i :: 0 <= i < |log| ==> !Concerns(log[i], riderId, driverId)
  {
    if log == [] then None
    else if Concerns(log[|log| - 1], riderId, driverId) then Some(|log| - 1)
    else LastAbout(log[..|log| - 1], riderId, driverId)
  }

  /** The kinds of notification that end a trip. */
  predicate EndsTrip(kind: string) {
    || kind == "trip_completed" || kind == "rider_cancelled" || kind == "driver_cancelled"
    || kind == "no_drivers" || kind == "trip_expired"
  }

  /** The position of the notification that binds a pair: its last one, unless this ends a trip. */
  function BoundBy(log: seq<Notification>, riderId: string, driverId: string): (last: Option<nat>)
    ensures last.Some? ==> last.value < |log| && Concerns(log[last.value], riderId, driverId)
  {
    match LastAbout(log, riderId, driverId)
    case None => None
    case Some(i) => if EndsTrip(log[i].kind) then None else Some(i)
  }

  /** The record is that of the notification. */
  predicate Records(info: TripInfo, n: Notification) {
    && info.riderId == n.riderId && info.driverId == n.driverId
    && info.tripId == n.tripId && info.details == n.details
  }

  predicate IdsInLog(log: seq<Notification>) {
    forall i :: 0 <= i < |log| && HasTripKey(log[i]) ==> IsId(log[i].riderId) && IsId(log[i].driverId)
  }

  /** After any notifications, the index holds for each pair the record of the notification that binds it. */
  lemma {:induction false} IndexRefinesLog(log: seq<Notification>, riderId: string, driverId: string)
    requires IdsInLog(log) && IsId(riderId) && IsId(driverId)
    ensures var key, last := TripKey(riderId, driverId), BoundBy(log, riderId, driverId);
            && (key in Replay(log) <==> last.Some?)
            && (last.Some? ==> key in Replay(log) && Records(Replay(log)[key], log[last.value]))
    decreases |log|
  {
    if log != [] {
      var front, n := log[..|log| - 1], log[|log| - 1];
      IndexRefinesLog(front, riderId, driverId);
      if HasTripKey(n) && TripKey(n.riderId, n.driverId) == TripKey(riderId, driverId) {
        TripKeyInjective(n.riderId, n.driverId, riderId, driverId);
      }
    }
  }

  /** Every key of the index is the trip key of the record stored under it. */
  ghost predicate KeyedByRecord(index: Index) {
    forall k :: k in index ==>
      && IsId(index[k].riderId) && IsId(index[k].driverId)
      && k == TripKey(index[k].riderId, index[k].driverId)
  }

  lemma {:induction false} IndexIsKeyedByRecord(log: seq<Notification>)
    requires IdsInLog(log)
    ensures KeyedByRecord(Replay(log))
    decreases |log|
  {
    if log != [] {
      var front := log[..|log| - 1];
      assert IdsInLog(front);
      IndexIsKeyedByRecord(front);
      assert HasTripKey(log[|log| - 1]) ==> IsId(log[|log| - 1].riderId) && IsId(log[|log| - 1].driverId);
    }
  }

  // ---------- Lookups ----------

  /** The keys a pattern matches. */
  function Matched(index: Index, pattern: string): set<string> {
    set k | k in index.Keys && Glob(pattern, k)
  }

  /** The rider lookup returns the keys of the trips the rider is on, each once, and nothing else. */
  lemma RiderLookupFindsTrips(log: seq<Notification>, riderId: string, key: string)
    requires IdsInLog(log) && IsId(riderId)
    ensures key in Matched(Replay(log), RiderPattern(riderId)) <==>
            exists d :: IsId(d) && key == TripKey(riderId, d) && BoundBy(log, riderId, d).Some?
    ensures forall d :: IsId(d) && key == TripKey(riderId, d) && BoundBy(log, riderId, d).Some? ==>
              key in Replay(log) && Records(Replay(log)[key], log[BoundBy(log, riderId, d).value])
  {
    var index := Replay(log);
    IndexIsKeyedByRecord(log);
    if key in index {
      var r, d := index[key].riderId, index[key].driverId;
      RiderLookup(Trip(r, d), riderId);
      IndexRefinesLog(log, r, d);
    }
    forall d | IsId(d)
      ensures TripKey(riderId, d) in index <==> BoundBy(log, riderId, d).Some?
      ensures BoundBy(log, riderId, d).Some? ==> Records(index[TripKey(riderId, d)], log[BoundBy(log, riderId, d).value])
    {
      IndexRefinesLog(log, riderId, d);
    }
    forall d | IsId(d) && key == TripKey(riderId, d) ensures Glob(RiderPattern(riderId), key) {
      RiderLookup(Trip(riderId, d), riderId);
    }
  }

  /** The driver lookup likewise. */
  lemma DriverLookupFindsTrips(log: seq<Notification>, driverId: string, key: string)
    requires IdsInLog(log) && IsId(driverId)
    ensures key in Matched(Replay(log), DriverPattern(driverId)) <==>
            exists r :: IsId(r) && key == TripKey(r, driverId) && BoundBy(log, r, driverId).Some?
    ensures forall r :: IsId(r) && key == TripKey(r, driverId) && BoundBy(log, r, driverId).Some? ==>
              key in Replay(log) && Records(Replay(log)[key], log[BoundBy(log, r, driverId).value])
  {
    var index := Replay(log);
    IndexIsKeyedByRecord(log);
    if key in index {
      var r, d := index[key].riderId, index[key].driverId;
      DriverLookup(Trip(r, d), driverId);
      IndexRefinesLog(log, r, d);
    }
    forall r | IsId(r)
      ensures TripKey(r, driverId) in index <==> BoundBy(log, r, driverId).Some?
      ensures BoundBy(log, r, driverId).Some? ==> Records(index[TripKey(r, driverId)], log[BoundBy(log, r, driverId).value])
    {
      IndexRefinesLog(log, r, driverId);
    }
    forall r | IsId(r) && key == TripKey(r, driverId) ensures Glob(DriverPattern(driverId), key) {
      DriverLookup(Trip(r, driverId), driverId);
    }
  }

  // ---------- How long a pair stays bound ----------

  predicate Releases(n: Notification, riderId: string, driverId: string) {
    Concerns(n, riderId, driverId) && EndsTrip(n.kind)
  }

  predicate Binds(n: Notification, riderId: string, driverId: string) {
    Concerns(n, riderId, driverId) && !EndsTrip(n.kind)
  }

  lemma BoundAfter(index: Index, n: Notification, riderId: string, driverId: string)
    requires IsId(riderId) && IsId(driverId)
    requires HasTripKey(n) ==> IsId(n.riderId) && IsId(n.driverId)
    ensures TripKey(riderId, driverId) in Notified(index, n) <==>
            Binds(n, riderId, driverId) || (TripKey(riderId, driverId) in index && !Releases(n, riderId, driverId))
  {
    if HasTripKey(n) && TripKey(n.riderId, n.driverId) == TripKey(riderId, driverId) {
      TripKeyInjective(n.riderId, n.driverId, riderId, driverId);
    }
  }

  lemma BoundStep(log: seq<Notification>, later: seq<Notification>, i: nat, riderId: string, driverId: string)
    requires IdsInLog(log + later) && IsId(riderId) && IsId(driverId) && i < |later|
    ensures TripKey(riderId, driverId) in Replay(log + later[..i + 1]) <==>
            Binds(later[i], riderId, driverId)
            || (TripKey(riderId, driverId) in Replay(log + later[..i]) && !Releases(later[i], riderId, driverId))
  {
    hide IsId, TripKey, Binds, Releases, Notified;
    var before, n, after := log + later[..i], later[i], log + later[..i + 1];
    assert |after| == |log| + i + 1 && after[..|log| + i] == before && after[|log| + i] == n;
    assert (log + later)[|log| + i] == n;
    BoundAfter(Replay(before), n, riderId, driverId);
  }

  lemma {:induction false} StaysBound(
      log: seq<Notification>, later: seq<Notification>, k: nat, riderId: string, driverId: string)
    requires IdsInLog(log + later) && IsId(riderId) && IsId(driverId) && k <= |later|
    requires TripKey(riderId, driverId) in Replay(log)
    requires forall i :: 0 <= i < k ==> !Releases(later[i], riderId, driverId)
    ensures TripKey(riderId, driverId) in Replay(log + later[..k])
  {
    hide IsId, TripKey, Binds, Releases, Replay, IdsInLog;
    if k == 0 {
      assert log + later[..0] == log;
    } else {
      StaysBound(log, later, k - 1, riderId, driverId);
      BoundStep(log, later, k - 1, riderId, driverId);
    }
  }

  /** Once a notification has bound a pair, it stays bound all along exactly when none that follows releases it.
    A cancellation by an administrator, or by a driver before arrival, is not on the terminal list, so it binds
    a pair and never releases one. */
  lemma StaysBoundExactly(log: seq<Notification>, later: seq<Notification>, riderId: string, driverId: string)
    requires IdsInLog(log + later) && IsId(riderId) && IsId(driverId)
    requires log != [] && Binds(log[|log| - 1], riderId, driverId)
    ensures (forall k :: 0 <= k <= |later| ==> TripKey(riderId, driverId) in Replay(log + later[..k])) <==>
            (forall i :: 0 <= i < |later| ==> !Releases(later[i], riderId, driverId))
  {
    BoundByLast(log, later, riderId, driverId);
    hide IsId, TripKey, Binds, Releases, Replay, IdsInLog;
    if forall i :: 0 <= i < |later| ==> !Releases(later[i], riderId, driverId) {
      forall k | 0 <= k <= |later| ensures TripKey(riderId, driverId) in Replay(log + later[..k]) {
        StaysBound(log, later, k, riderId, driverId);
      }
    } else {
      var i :| 0 <= i < |later| && Releases(later[i], riderId, driverId);
      BoundStep(log, later, i, riderId, driverId);
      NotBoth(later[i], riderId, driverId);
    }
  }

  /** Two such cancellations: after any log they leave the rider on the trip. */
  lemma SomeCancellationsBind(log: seq<Notification>, n: Notification)
    requires n.kind in {"admin_cancelled", "driver_cancelled_before_arrived"}
    requires IdsInLog(log + [n]) && HasTripKey(n)
    ensures TripKey(n.riderId, n.driverId) in Matched(Replay(log + [n]), RiderPattern(n.riderId))
    ensures Records(Replay(log + [n])[TripKey(n.riderId, n.driverId)], n)
  {
    assert (log + [n])[..|log|] == log && (log + [n])[|log|] == n;
    RiderLookup(Trip(n.riderId, n.driverId), n.riderId);
  }

  lemma NotBoth(n: Notification, riderId: string, driverId: string)
    ensures !(Binds(n, riderId, driverId) && Releases(n, riderId, driverId))
  {
  }

  lemma BoundByLast(log: seq<Notification>, later: seq<Notification>, riderId: string, driverId: string)
    requires IdsInLog(log + later) && IsId(riderId) && IsId(driverId)
    requires log != [] && Binds(log[|log| - 1], riderId, driverId)
    ensures TripKey(riderId, driverId) in Replay(log)
  {
    assert (log + later)[|log| - 1] == log[|log| - 1];
    BoundAfter(Replay(log[..|log| - 1]), log[|log| - 1], riderId, driverId);
  }
}
