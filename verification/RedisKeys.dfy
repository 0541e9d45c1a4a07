/** The keys all services share in Redis, and the glob patterns trips are looked up with. */
module RedisKeys {
  import opened Decimal

  /** One constructor for each kind of key; the text the source builds is `Render`. */
  datatype Key =
    | SocketUser(userId: string)
    | SocketClient(clientId: string)
    | Trip(riderId: string, driverId: string)
    | GroupMembers(groupId: string)
    | DriverLocation(driverId: string)
    | RiderLocation(riderId: string)
    | TripDriver(tripId: string)
    | TripRider(tripId: string)
    | DriverTrail(tripId: string)
    | RiderTrail(tripId: string)
    | ChatUser(userId: string)
    | DriverClient(driverId: string)
    | DriverUser(userId: string)
    | UserToken(hash: string)
    | UserDetail(hash: string)
    | CabType(cabId: string)
    | CabCharge(cabId: string)
    | FareMultiplier(cityAndId: string)
    | TripDestinations(tripId: string)
    | Setting(name: string)
    | Role(code: string)
    | Constant(name: string)
    | SyncMark(name: string)

  /** The fixed keys that record when a table was last copied into Redis. */
  predicate IsSyncMark(s: string) {
    || s == "settings-last-synced" || s == "role-last-synced" || s == "cab-types-synced" || s == "cab-charges-synced"
  }

  function Render(key: Key): string {
    match key
    case SocketUser(u) => "socket-user-" + u
    case SocketClient(c) => "socket-client-" + c
    case Trip(r, d) => TripKey(r, d)
    case GroupMembers(g) => "group-members-" + g
    case DriverLocation(d) => "location-" + d + "-driver"
    case RiderLocation(r) => "location-" + r + "-rider"
    case TripDriver(t) => "tripDriver-" + t
    case TripRider(t) => "tripRider-" + t
    case DriverTrail(t) => "tripLoc-" + t + "-driver"
    case RiderTrail(t) => "tripLoc-" + t + "-rider"
    case ChatUser(u) => "chat-user-" + u
    case DriverClient(d) => "driverClient-" + d
    case DriverUser(u) => "driverUser-" + u
    case UserToken(h) => "user-token-" + h
    case UserDetail(h) => "user-" + h
    case CabType(c) => "cab-type-" + c
    case CabCharge(c) => "cab-charge-" + c
    case FareMultiplier(f) => "fare-multiplier-" + f
    case TripDestinations(t) => "tripDestinations-" + t
    case Setting(n) => "SETTING_" + n
    case Role(c) => "ROLE-" + c
    case Constant(n) => n
    case SyncMark(n) => n
  }

  function TripKey(riderId: string, driverId: string): string {
    riderId + "-trip-" + driverId
  }

  /** User, rider and driver ids are numerals. */
  predicate IsId(s: string) {
    s != [] && AllDigits(s)
  }

  predicate HasPrefix(s: string, p: string) {
    |p| <= |s| && s[..|p|] == p
  }

  predicate HasSuffix(s: string, p: string) {
    |p| <= |s| && s[|s| - |p|..] == p
  }

  // ---------- Distinct keys have distinct texts ----------

  /** The character at a position, or a blank outside the text. */
  function At(s: string, i: int): char {
    if 0 <= i < |s| then s[i] else ' '
  }

  /** The kind of a key, told from its text. */
  function Kind(s: string): int {
    var c := At(s, 0);
    if IsDigit(c) then 1
    else if 'A' <= c <= 'Z' then (if HasPrefix(s, "SETTING_") then 20 else if HasPrefix(s, "ROLE-") then 22 else 23)
    else if IsSyncMark(s) then 21
    else if c == 's' then (if At(s, 7) == 'u' then 2 else 3)
    else if c == 'g' then 4
    else if c == 'l' && |s| > 6 then (if s[|s| - 6] == 'd' then 5 else 6)
    else if c == 'c' then (if At(s, 1) == 'h' then 11 else if At(s, 4) == 't' then 16 else 17)
    else if c == 'd' then (if At(s, 6) == 'C' then 12 else 13)
    else if c == 'u' then (if At(s, 5) == 't' then 14 else 15)
    else if c == 'f' then 18
    else if At(s, 4) == 'D' then (if At(s, 5) == 'r' then 7 else 19)
    else if At(s, 4) == 'R' then 8
    else if |s| > 6 then (if s[|s| - 6] == 'd' then 9 else 10)
    else 0
  }

  function KindOf(key: Key): int {
    match key
    case Trip(_, _) => 1
    case SocketUser(_) => 2
    case SocketClient(_) => 3
    case GroupMembers(_) => 4
    case DriverLocation(_) => 5
    case RiderLocation(_) => 6
    case TripDriver(_) => 7
    case TripRider(_) => 8
    case DriverTrail(_) => 9
    case RiderTrail(_) => 10
    case ChatUser(_) => 11
    case DriverClient(_) => 12
    case DriverUser(_) => 13
    case UserToken(_) => 14
    case UserDetail(_) => 15
    case CabType(_) => 16
    case CabCharge(_) => 17
    case FareMultiplier(_) => 18
    case TripDestinations(_) => 19
    case Setting(_) => 20
    case SyncMark(_) => 21
    case Role(_) => 22
    case Constant(_) => 23
  }

  /** What it takes to tell a key's kind from its text: the rider id of a trip key is a numeral, the hash of a
    user key is a hash, other constants start with a capital but not like settings and roles, and there are
    four synchronisation marks. */
  predicate Readable(key: Key) {
    match key
    case Trip(r, _) => IsId(r)
    case UserDetail(h) => IsObjectId(h)
    case Constant(n) => 'A' <= At(n, 0) <= 'Z' && !HasPrefix(n, "SETTING_") && !HasPrefix(n, "ROLE-")
    case SyncMark(n) => IsSyncMark(n)
    case _ => true
  }

  /** Group, trip and cab ids and hashes are written with digits, the letters a to f and dashes. */
  predicate IsObjectId(s: string) {
    forall i :: 0 <= i < |s| ==> IsDigit(s[i]) || 'a' <= s[i] <= 'f' || s[i] == '-'
  }

  lemma LastSix(front: string, role: string)
    requires |role| >= 6
    ensures |front + role| > 5 && (front + role)[|front + role| - 6] == role[|role| - 6]
  {
  }

  lemma MarkShape(s: string)
    ensures IsSyncMark(s) ==> At(s, 0) in {'s', 'r', 'c'}
    ensures IsSyncMark(s) && At(s, 0) == 's' ==> At(s, 1) == 'e'
    ensures IsSyncMark(s) && At(s, 0) == 'c' ==> At(s, 1) == 'a' && At(s, 8) != '-' && At(s, 10) != '-'
  {
  }

  lemma KindOfSocketKey(key: Key)
    requires key.SocketUser? || key.SocketClient?
    ensures Kind(Render(key)) == KindOf(key)
  {
    hide IsSyncMark;
    var s := Render(key);
    MarkShape(s);
    assert s[0] == 's' && s[1] == 'o' && s[7] == if key.SocketUser? then 'u' else 'c';
  }

  lemma KindOfLocation(key: Key)
    requires key.DriverLocation? || key.RiderLocation?
    ensures Kind(Render(key)) == KindOf(key)
  {
    hide IsSyncMark;
    var s := Render(key);
    MarkShape(s);
    assert s[0] == 'l';
    match key
    case DriverLocation(d) => LastSix("location-" + d, "-driver");
    case RiderLocation(r) => LastSix("location-" + r, "-rider");
  }

  lemma KindOfTripData(key: Key)
    requires key.TripDriver? || key.TripRider? || key.TripDestinations? || key.DriverTrail? || key.RiderTrail?
    ensures Kind(Render(key)) == KindOf(key)
  {
    hide IsSyncMark;
    var s := Render(key);
    MarkShape(s);
    match key
    case TripDriver(t) => assert s[0] == 't' && s[4] == 'D' && s[5] == 'r';
    case TripDestinations(t) => assert s[0] == 't' && s[4] == 'D' && s[5] == 'e';
    case TripRider(t) => assert s[0] == 't' && s[4] == 'R';
    case DriverTrail(t) => assert s[0] == 't' && s[4] == 'L'; LastSix("tripLoc-" + t, "-driver");
    case RiderTrail(t) => assert s[0] == 't' && s[4] == 'L'; LastSix("tripLoc-" + t, "-rider");
  }

  lemma KindOfUserData(key: Key)
    requires key.DriverClient? || key.DriverUser? || key.UserToken? || key.UserDetail?
    requires Readable(key)
    ensures Kind(Render(key)) == KindOf(key)
  {
    hide IsSyncMark;
    var s := Render(key);
    MarkShape(s);
    match key
    case DriverClient(d) => assert s[0] == 'd' && s[6] == 'C';
    case DriverUser(u) => assert s[0] == 'd' && s[6] == 'U';
    case UserToken(h) => assert s[0] == 'u' && s[5] == 't';
    case UserDetail(h) => assert s[0] == 'u' && At(s, 5) == At(h, 0);
  }

  lemma KindInC(key: Key)
    requires key.ChatUser? || key.CabType? || key.CabCharge?
    ensures Kind(Render(key)) == KindOf(key)
  {
    hide IsSyncMark;
    var s := Render(key);
    MarkShape(s);
    match key
    case ChatUser(u) => assert s[0] == 'c' && s[1] == 'h';
    case CabType(c) => assert s[0] == 'c' && s[1] == 'a' && s[4] == 't' && s[8] == '-';
    case CabCharge(c) => assert s[0] == 'c' && s[1] == 'a' && s[4] == 'c' && s[10] == '-';
  }

  lemma KindOfCapitals(key: Key)
    requires key.Setting? || key.Role? || key.Constant?
    requires Readable(key)
    ensures Kind(Render(key)) == KindOf(key)
  {
    var s := Render(key);
    match key
    case Setting(n) => assert s[..8] == "SETTING_" && s[0] == 'S';
    case Role(c) => assert s[..5] == "ROLE-" && s[0] == 'R';
    case Constant(n) => assert s == n;
  }

  lemma KindOfTheRest(key: Key)
    requires key.Trip? || key.GroupMembers? || key.FareMultiplier? || key.SyncMark?
    requires Readable(key)
    ensures Kind(Render(key)) == KindOf(key)
  {
    hide IsSyncMark;
    var s := Render(key);
    MarkShape(s);
    match key
    case Trip(r, d) => assert s[0] == r[0];
    case GroupMembers(g) => assert s[0] == 'g';
    case FareMultiplier(f) => assert s[0] == 'f';
    case SyncMark(n) => assert At(n, 0) in {'s', 'r', 'c'};
  }

  lemma KindOfRender(key: Key)
    requires Readable(key)
    ensures Kind(Render(key)) == KindOf(key)
  {
    hide Kind, Render, KindOf, Readable;
    match key
    case SocketUser(_) => KindOfSocketKey(key);
    case SocketClient(_) => KindOfSocketKey(key);
    case DriverLocation(_) => KindOfLocation(key);
    case RiderLocation(_) => KindOfLocation(key);
    case TripDriver(_) => KindOfTripData(key);
    case TripRider(_) => KindOfTripData(key);
    case TripDestinations(_) => KindOfTripData(key);
    case DriverTrail(_) => KindOfTripData(key);
    case RiderTrail(_) => KindOfTripData(key);
    case DriverClient(_) => KindOfUserData(key);
    case DriverUser(_) => KindOfUserData(key);
    case UserToken(_) => KindOfUserData(key);
    case UserDetail(_) => KindOfUserData(key);
    case ChatUser(_) => KindInC(key);
    case CabType(_) => KindInC(key);
    case CabCharge(_) => KindInC(key);
    case Setting(_) => KindOfCapitals(key);
    case Role(_) => KindOfCapitals(key);
    case Constant(_) => KindOfCapitals(key);
    case _ => KindOfTheRest(key);
  }

  lemma SamePrefix(p: string, a: string, b: string)
    requires p + a == p + b
    ensures a == b
  {
    assert (p + a)[|p|..] == a && (p + b)[|p|..] == b;
  }

  lemma SameAffixes(p: string, a: string, b: string, q: string)
    requires p + a + q == p + b + q
    ensures a == b
  {
    assert |p + a + q| == |p| + |a| + |q|;
    assert (p + a + q)[|p|..|p| + |a|] == a && (p + b + q)[|p|..|p| + |b|] == b;
  }

  function FirstDash(s: string): nat {
    if s == [] || s[0] == '-' then 0 else 1 + FirstDash(s[1..])
  }

  lemma {:induction false} FirstDashAfterDigits(digits: string, rest: string)
    requires AllDigits(digits)
    ensures FirstDash(digits + "-" + rest) == |digits|
    decreases |digits|
  {
    if digits == [] {
      assert (digits + "-" + rest)[0] == '-';
    } else {
      FirstDashAfterDigits(digits[1..], rest);
      assert (digits + "-" + rest)[1..] == digits[1..] + "-" + rest;
    }
  }

  /** A rider id ends at the first dash of the key. */
  lemma TripKeyInjective(r1: string, d1: string, r2: string, d2: string)
    requires AllDigits(r1) && AllDigits(r2)
    requires TripKey(r1, d1) == TripKey(r2, d2)
    ensures r1 == r2 && d1 == d2
  {
    var s := TripKey(r1, d1);
    assert s == r1 + "-" + ("trip-" + d1) && s == r2 + "-" + ("trip-" + d2);
    FirstDashAfterDigits(r1, "trip-" + d1);
    FirstDashAfterDigits(r2, "trip-" + d2);
    assert s[..|r1|] == r1 && s[..|r2|] == r2;
    assert s[|r1| + 6..] == d1 && s[|r2| + 6..] == d2;
  }

  /** Keys are texts of different kinds or name different things: no two parts of the system share a cell. */
  lemma RenderInjective(k1: Key, k2: Key)
    requires Readable(k1) && Readable(k2)
    ensures Render(k1) == Render(k2) <==> k1 == k2
  {
    if Render(k1) == Render(k2) {
      KindOfRender(k1);
      KindOfRender(k2);
      match k1
      case SocketUser(u) => SamePrefix("socket-user-", u, k2.userId);
      case SocketClient(c) => SamePrefix("socket-client-", c, k2.clientId);
      case Trip(r, d) => TripKeyInjective(r, d, k2.riderId, k2.driverId);
      case GroupMembers(g) => SamePrefix("group-members-", g, k2.groupId);
      case DriverLocation(d) => SameAffixes("location-", d, k2.driverId, "-driver");
      case RiderLocation(r) => SameAffixes("location-", r, k2.riderId, "-rider");
      case TripDriver(t) => SamePrefix("tripDriver-", t, k2.tripId);
      case TripRider(t) => SamePrefix("tripRider-", t, k2.tripId);
      case DriverTrail(t) => SameAffixes("tripLoc-", t, k2.tripId, "-driver");
      case RiderTrail(t) => SameAffixes("tripLoc-", t, k2.tripId, "-rider");
      case ChatUser(u) => SamePrefix("chat-user-", u, k2.userId);
      case DriverClient(d) => SamePrefix("driverClient-", d, k2.driverId);
      case DriverUser(u) => SamePrefix("driverUser-", u, k2.userId);
      case UserToken(h) => SamePrefix("user-token-", h, k2.hash);
      case UserDetail(h) => SamePrefix("user-", h, k2.hash);
      case CabType(c) => SamePrefix("cab-type-", c, k2.cabId);
      case CabCharge(c) => SamePrefix("cab-charge-", c, k2.cabId);
      case FareMultiplier(f) => SamePrefix("fare-multiplier-", f, k2.cityAndId);
      case TripDestinations(t) => SamePrefix("tripDestinations-", t, k2.tripId);
      case Setting(n) => SamePrefix("SETTING_", n, k2.name);
      case Role(c) => SamePrefix("ROLE-", c, k2.code);
      case Constant(n) =>
      case SyncMark(n) =>
    }
  }

  // ---------- Glob patterns ----------

  const SPECIAL := {'*', '?', '[', ']', '\\'}

  predicate Plain(p: string) {
    forall c :: c in p ==> c !in SPECIAL
  }

  /** Redis glob matching for patterns whose only special character is the star. */
  predicate Glob(p: string, s: string)
    decreases |p|
  {
    if p == [] then s == []
    else if p[0] == '*' then exists k :: 0 <= k <= |s| && Glob(p[1..], s[k..])
    else s != [] && s[0] == p[0] && Glob(p[1..], s[1..])
  }

  lemma {:induction false} GlobPlain(p: string, s: string)
    requires Plain(p)
    ensures Glob(p, s) <==> s == p
    decreases |p|
  {
    if p != [] {
      assert p[0] in p;
      if s != [] {
        GlobPlain(p[1..], s[1..]);
        assert s == [s[0]] + s[1..] && p == [p[0]] + p[1..];
      }
    }
  }

  /** A leading star asks for the rest as a suffix. */
  lemma GlobSuffix(p: string, s: string)
    requires Plain(p)
    ensures Glob("*" + p, s) <==> HasSuffix(s, p)
  {
    assert ("*" + p)[1..] == p;
    forall k | 0 <= k <= |s| ensures Glob(p, s[k..]) <==> s[k..] == p {
      GlobPlain(p, s[k..]);
    }
    if HasSuffix(s, p) {
      assert Glob(p, s[|s| - |p|..]);
    }
  }

  /** A trailing star asks for the rest as a prefix. */
  lemma {:induction false} GlobPrefix(p: string, s: string)
    requires Plain(p)
    ensures Glob(p + "*", s) <==> HasPrefix(s, p)
    decreases |p|
  {
    if p == [] {
      assert p + "*" == "*";
      assert Glob("*"[1..], s[|s|..]);
    } else {
      assert p[0] in p;
      assert (p + "*")[1..] == p[1..] + "*";
      if s != [] {
        GlobPrefix(p[1..], s[1..]);
        if |p| <= |s| {
          assert s[..|p|] == [s[0]] + s[1..][..|p| - 1];
          assert p == [p[0]] + p[1..];
        }
      }
    }
  }

  // ---------- Looking trips up ----------

  function DriverPattern(driverId: string): string {
    "*-trip-" + driverId
  }

  function RiderPattern(riderId: string): string {
    riderId + "-trip-*"
  }

  lemma DigitsArePlain(s: string)
    requires AllDigits(s)
    ensures Plain(s) && Plain("-trip-" + s) && Plain(s + "-trip-")
  {
  }

  /** A 36-character identifier, whose last dash stands twelve characters before its end. */
  predicate IsUuid(s: string) {
    |s| == 36 && IsObjectId(s) && s[23] == '-'
  }

  predicate NoSmallLetters(s: string) {
    forall i :: 0 <= i < |s| ==> !('a' <= s[i] <= 'z')
  }

  predicate WellFormed(key: Key) {
    match key
    case SocketUser(u) => IsId(u)
    case SocketClient(c) => true
    case Trip(r, d) => IsId(r) && IsId(d)
    case GroupMembers(g) => IsObjectId(g)
    case DriverLocation(d) => IsId(d)
    case RiderLocation(r) => IsId(r)
    case TripDriver(t) => IsObjectId(t)
    case TripRider(t) => IsObjectId(t)
    case DriverTrail(t) => IsObjectId(t)
    case RiderTrail(t) => IsObjectId(t)
    case ChatUser(u) => IsId(u)
    case DriverClient(d) => IsId(d)
    case DriverUser(u) => IsObjectId(u)
    case UserToken(h) => IsObjectId(h)
    case UserDetail(h) => IsObjectId(h)
    case CabType(c) => IsObjectId(c)
    case CabCharge(c) => IsObjectId(c)
    case FareMultiplier(f) => |f| >= 36 && IsUuid(f[|f| - 36..])
    case TripDestinations(t) => IsObjectId(t)
    case Setting(n) => NoSmallLetters(n)
    case Role(c) => NoSmallLetters(c)
    case Constant(n) => NoSmallLetters(n) && Readable(key)
    case SyncMark(n) => Readable(key)
  }

  /** The rider pattern finds exactly the rider's trips, whatever else is stored. */
  lemma RiderLookup(key: Key, riderId: string)
    requires Readable(key) && IsId(riderId)
    ensures Glob(RiderPattern(riderId), Render(key)) <==> key.Trip? && key.riderId == riderId
  {
    var p := riderId + "-trip-";
    var s := Render(key);
    DigitsArePlain(riderId);
    GlobPrefix(p, s);
    assert p + "*" == RiderPattern(riderId);
    if key.Trip? && key.riderId == riderId {
      assert s == p + key.driverId;
    }
    if HasPrefix(s, p) {
      assert s[0] == p[0] == riderId[0];
      KindOfRender(key);
      assert s == TripKey(riderId, s[|p|..]);
      TripKeyInjective(key.riderId, key.driverId, riderId, s[|p|..]);
    }
  }

  /** No dash in the text starts `-tr`, nor could start it if more letters followed than a dash at the end. */
  predicate NoDashTr(s: string) {
    forall j {:trigger s[j]} :: 0 <= j < |s| - 1 && s[j] == '-' && s[j + 1] == 't' ==> j + 2 < |s| && s[j + 2] != 'r'
  }

  /** The text has `-tr?p` six places before its last `n` characters, as a trip key has before its driver. */
  predicate TripEnd(s: string, n: nat) {
    var j := |s| - n - 6;
    0 <= j && At(s, j) == '-' && At(s, j + 1) == 't' && At(s, j + 2) == 'r' && At(s, j + 4) == 'p'
  }

  lemma TripSuffixAt(s: string, driverId: string)
    ensures HasSuffix(s, "-trip-" + driverId) ==> TripEnd(s, |driverId|) && s[|s| - |driverId|..] == driverId
  {
    var p := "-trip-" + driverId;
    if HasSuffix(s, p) {
      var t := s[|s| - |p|..];
      assert t[0] == p[0] && t[1] == p[1] && t[2] == p[2] && t[4] == p[4];
      assert t[6..] == p[6..] == driverId;
    }
  }

  lemma NoTripSuffix(literal: string, id: string, driverId: string)
    requires NoDashTr(literal) && IsObjectId(id)
    ensures !HasSuffix(literal + id, "-trip-" + driverId)
  {
    var s := literal + id;
    var j := |s| - |driverId| - 6;
    TripSuffixAt(s, driverId);
    assert |literal| <= j + 1 < |s| ==> At(s, j + 1) == id[j + 1 - |literal|] != 't';
    assert 0 <= j < |literal| - 1 ==> At(s, j) == literal[j] && At(s, j + 1) == literal[j + 1];
    assert 0 <= j < |literal| - 2 ==> At(s, j + 2) == literal[j + 2];
  }

  /** A trip pattern ends in a digit. */
  lemma NoTripSuffixBefore(s: string, driverId: string)
    requires IsId(driverId) && s != [] && !IsDigit(s[|s| - 1])
    ensures !HasSuffix(s, "-trip-" + driverId)
  {
    var p := "-trip-" + driverId;
    assert At(p, |p| - 1) == driverId[|driverId| - 1];
    assert HasSuffix(s, p) ==> At(s, |s| - 1) == At(p, |p| - 1);
  }

  lemma NoTripSuffixInCapitals(s: string, driverId: string)
    requires NoSmallLetters(s)
    ensures !HasSuffix(s, "-trip-" + driverId)
  {
    TripSuffixAt(s, driverId);
    assert At(s, |s| - |driverId| - 5) != 't';
  }

  /** The twelve last characters of an identifier are too few for a trip pattern and too many for its digits. */
  lemma NoTripSuffixAfterUuid(literal: string, uuid: string, driverId: string)
    requires IsUuid(uuid) && AllDigits(driverId)
    ensures !HasSuffix(literal + uuid, "-trip-" + driverId)
  {
    var s := literal + uuid;
    var n := |driverId|;
    TripSuffixAt(s, driverId);
    assert s[|s| - 13] == uuid[23] == '-';
    assert n > 12 && n <= |s| ==> s[|s| - n..][n - 13] == '-' && driverId[n - 13] != '-';
    assert n <= 12 ==> At(s, |s| - n - 2) == uuid[34 - n] != 'p';
  }

  lemma LiteralsHaveNoDashTr()
    ensures NoDashTr("socket-user-") && NoDashTr("group-members-") && NoDashTr("tripDriver-")
    ensures NoDashTr("tripRider-") && NoDashTr("chat-user-") && NoDashTr("driverClient-")
    ensures NoDashTr("driverUser-") && NoDashTr("user-token-") && NoDashTr("user-")
    ensures NoDashTr("cab-type-") && NoDashTr("cab-charge-") && NoDashTr("tripDestinations-")
  {
  }

  /** No other key ends like a trip key. */
  lemma OnlyTripsEndLikeTrips(key: Key, driverId: string)
    requires WellFormed(key) && IsId(driverId) && !key.Trip? && !key.SocketClient?
    ensures !HasSuffix(Render(key), "-trip-" + driverId)
  {
    hide HasSuffix, NoDashTr;
    LiteralsHaveNoDashTr();
    match key
    case SocketUser(u) => NoTripSuffix("socket-user-", u, driverId);
    case GroupMembers(g) => NoTripSuffix("group-members-", g, driverId);
    case DriverLocation(d) => NoTripSuffixBefore(Render(key), driverId);
    case RiderLocation(r) => NoTripSuffixBefore(Render(key), driverId);
    case TripDriver(t) => NoTripSuffix("tripDriver-", t, driverId);
    case TripRider(t) => NoTripSuffix("tripRider-", t, driverId);
    case DriverTrail(t) => NoTripSuffixBefore(Render(key), driverId);
    case RiderTrail(t) => NoTripSuffixBefore(Render(key), driverId);
    case ChatUser(u) => NoTripSuffix("chat-user-", u, driverId);
    case DriverClient(d) => NoTripSuffix("driverClient-", d, driverId);
    case DriverUser(u) => NoTripSuffix("driverUser-", u, driverId);
    case UserToken(h) => NoTripSuffix("user-token-", h, driverId);
    case UserDetail(h) => NoTripSuffix("user-", h, driverId);
    case CabType(c) => NoTripSuffix("cab-type-", c, driverId);
    case CabCharge(c) => NoTripSuffix("cab-charge-", c, driverId);
    case FareMultiplier(f) =>
      var front := "fare-multiplier-" + f[..|f| - 36];
      assert Render(key) == front + f[|f| - 36..];
      NoTripSuffixAfterUuid(front, f[|f| - 36..], driverId);
    case TripDestinations(t) => NoTripSuffix("tripDestinations-", t, driverId);
    case Setting(n) => NoTripSuffixInCapitals("SETTING_" + n, driverId);
    case Role(c) => NoTripSuffixInCapitals("ROLE-" + c, driverId);
    case Constant(n) => NoTripSuffixInCapitals(n, driverId);
    case SyncMark(n) => NoTripSuffixBefore(n, driverId);
  }

  function TrailingDigits(s: string): nat {
    if s == [] || !IsDigit(s[|s| - 1]) then 0 else 1 + TrailingDigits(s[..|s| - 1])
  }

  lemma {:induction false} TrailingDigitsAfterDash(front: string, digits: string)
    requires AllDigits(digits)
    ensures TrailingDigits(front + "-" + digits) == |digits|
    decreases |digits|
  {
    var s := front + "-" + digits;
    if digits == [] {
      assert s[|s| - 1] == '-';
    } else {
      TrailingDigitsAfterDash(front, digits[..|digits| - 1]);
      assert s[..|s| - 1] == front + "-" + digits[..|digits| - 1];
    }
  }

  lemma SuffixOfTripKey(riderId: string, d1: string, d2: string)
    requires AllDigits(d1) && AllDigits(d2)
    ensures HasSuffix(TripKey(riderId, d1), "-trip-" + d2) <==> d1 == d2
  {
    var s, p := TripKey(riderId, d1), "-trip-" + d2;
    if d1 == d2 {
      assert s[|riderId|..] == p;
    }
    if HasSuffix(s, p) {
      var front := s[..|s| - |p|];
      assert s == front + p;
      assert s == (riderId + "-trip") + "-" + d1 && s == (front + "-trip") + "-" + d2;
      SameTrailingDigits(riderId + "-trip", d1, front + "-trip", d2, s);
    }
  }

  lemma SameTrailingDigits(f1: string, d1: string, f2: string, d2: string, s: string)
    requires AllDigits(d1) && AllDigits(d2)
    requires s == f1 + "-" + d1 && s == f2 + "-" + d2
    ensures d1 == d2
  {
    TrailingDigitsAfterDash(f1, d1);
    TrailingDigitsAfterDash(f2, d2);
    assert s[|s| - |d1|..] == d1 && s[|s| - |d2|..] == d2;
  }

  /** The driver pattern finds exactly the driver's trips, and possibly a socket whose random id ends the
    same way. */
  lemma DriverLookup(key: Key, driverId: string)
    requires WellFormed(key) && IsId(driverId)
    ensures Glob(DriverPattern(driverId), Render(key)) <==>
            (key.Trip? && key.driverId == driverId)
            || (key.SocketClient? && HasSuffix("-" + key.clientId, "-trip-" + driverId))
  {
    var p := "-trip-" + driverId;
    var s := Render(key);
    DigitsArePlain(driverId);
    GlobSuffix(p, s);
    assert "*" + p == DriverPattern(driverId);
    if key.Trip? {
      SuffixOfTripKey(key.riderId, key.driverId, driverId);
    } else if key.SocketClient? {
      SuffixOfSocketClient(key.clientId, driverId);
    } else {
      OnlyTripsEndLikeTrips(key, driverId);
    }
  }

  lemma SuffixInside(a: string, b: string, p: string)
    requires |p| <= |b|
    ensures HasSuffix(a + b, p) <==> HasSuffix(b, p)
  {
    assert (a + b)[|a + b| - |p|..] == b[|b| - |p|..];
  }

  lemma SuffixOfSocketClient(clientId: string, driverId: string)
    ensures HasSuffix("socket-client-" + clientId, "-trip-" + driverId) <==>
            HasSuffix("-" + clientId, "-trip-" + driverId)
  {
    hide HasSuffix;
    var t, p := "-" + clientId, "-trip-" + driverId;
    assert "socket-client-" + clientId == "socket-client" + t;
    if |p| <= |t| {
      SuffixInside("socket-client", t, p);
    } else {
      SuffixNotInside("socket-client-", clientId, driverId);
      SuffixTooLong(t, p);
    }
  }

  lemma SuffixNotInside(literal: string, rest: string, driverId: string)
    requires NoDashTr(literal) && |rest| < |driverId| + 5
    requires literal != [] && literal[|literal| - 1] == '-'
    ensures !HasSuffix(literal + rest, "-trip-" + driverId)
  {
    var s := literal + rest;
    var j := |s| - |driverId| - 6;
    TripSuffixAt(s, driverId);
    assert 0 <= j ==> j < |literal| - 1 && At(s, j) == literal[j] && At(s, j + 1) == literal[j + 1];
    assert 0 <= j < |literal| - 2 ==> At(s, j + 2) == literal[j + 2];
  }

  lemma SuffixTooLong(s: string, p: string)
    requires |s| < |p|
    ensures !HasSuffix(s, p)
  {
  }
}
