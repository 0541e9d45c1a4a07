/** The socket session registry: which socket a user is reached on, and which user a socket speaks for.
  Each handler runs as one step. */
module Sessions {
  import opened Wrappers

  /** The ids socket.io gives to its clients. */
  type ClientId = c: string | c != "" witness "c"

  /** A usage event: status 1 for a user coming online, 0 for one going offline. */
  datatype Usage = Usage(userId: string, clientId: ClientId, status: int)

  /** `sockets` holds the keys socket-user-U, `users` the keys socket-client-C. */
  datatype Session = Session(sockets: map<string, ClientId>, users: map<ClientId, string>, usage: seq<Usage>)

  const EMPTY := Session(map[], map[], [])

  datatype Op =
    | Subscribe(clientId: ClientId, userId: string)
    | Unsubscribe(clientId: ClientId)
    | Disconnect(clientId: ClientId)

  /** How an absent user reads once it is put into a key. */
  const NOBODY := "null"

  function AfterSubscribe(s: Session, c: ClientId, u: string): Session {
    if u == "" then s
    else
      var existing := Get(s.sockets, u);
      var users := if existing.Some? && existing.value != c then s.users - {existing.value} else s.users;
      var usage := if existing.None? then s.usage + [Usage(u, c, 1)] else s.usage;
      Session(s.sockets[u := c], users[c := u], usage)
  }

  function AfterUnsubscribe(s: Session, c: ClientId): Session {
    var u := if c in s.users then s.users[c] else NOBODY;
    s.(sockets := s.sockets - {u}, users := s.users - {c})
  }

  function AfterDisconnect(s: Session, c: ClientId): Session {
    if c in s.users && s.users[c] != "" then
      Session(s.sockets - {s.users[c]}, s.users - {c}, s.usage + [Usage(s.users[c], c, 0)])
    else
      s.(users := s.users - {c})
  }

  function Step(s: Session, op: Op): Session {
    match op
    case Subscribe(c, u) => AfterSubscribe(s, c, u)
    case Unsubscribe(c) => AfterUnsubscribe(s, c)
    case Disconnect(c) => AfterDisconnect(s, c)
  }

  function Run(ops: seq<Op>): Session {
    if ops == [] then EMPTY else Step(Run(ops[..|ops| - 1]), ops[|ops| - 1])
  }

  /** The socket `publishToClient` sends to, if any. */
  function Target(s: Session, u: string): Option<ClientId> {
    if u == "" then None else Get(s.sockets, u)
  }

  /** Once a socket has subscribed it speaks for the user and the user is reached on it. Every other user is
    reached as before, and of the other sockets only the one displaced loses its user. */
  lemma Subscribed(s: Session, c: ClientId, u: string)
    requires u != ""
    ensures var s' := Step(s, Subscribe(c, u));
            && Get(s'.users, c) == Some(u) && Get(s'.sockets, u) == Some(c)
            && (forall v: string :: v != u ==> Get(s'.sockets, v) == Get(s.sockets, v))
            && (forall d: ClientId :: d != c ==>
                  Get(s'.users, d) == if Get(s.sockets, u) == Some(d) then None else Get(s.users, d))
  {
  }

  // ---------- Every socket's user is reached on that socket ----------

  ghost predicate Registered(s: Session) {
    forall c: ClientId :: c in s.users ==> s.users[c] != "" && Get(s.sockets, s.users[c]) == Some(c)
  }

  ghost predicate NobodyIn(s: Session) {
    exists c: ClientId :: c in s.users && s.users[c] == NOBODY
  }

  lemma SubscribeKeepsRegistered(s: Session, c: ClientId, u: string)
    requires Registered(s)
    ensures Registered(AfterSubscribe(s, c, u))
  {
  }

  lemma DisconnectKeepsRegistered(s: Session, c: ClientId)
    requires Registered(s)
    ensures Registered(AfterDisconnect(s, c))
  {
  }

  /** Unsubscribing a socket without a user deletes the session key of a user called "null"; it does harm
    exactly when there is one. */
  lemma UnsubscribeKeepsRegisteredExactly(s: Session, c: ClientId)
    requires Registered(s)
    ensures Registered(AfterUnsubscribe(s, c)) <==> c in s.users || !NobodyIn(s)
  {
    var s' := AfterUnsubscribe(s, c);
    if c !in s.users && NobodyIn(s) {
      var c' :| c' in s.users && s.users[c'] == NOBODY;
      assert c' in s'.users;
    }
  }

  /** The step does not unsubscribe a socket without a user while there is a user called "null". */
  ghost predicate Harmless(s: Session, op: Op) {
    op.Unsubscribe? ==> op.clientId in s.users || !NobodyIn(s)
  }

  ghost predicate HarmlessRun(ops: seq<Op>) {
    forall i :: 0 <= i < |ops| ==> Harmless(Run(ops[..i]), ops[i])
  }

  lemma StepKeepsRegisteredExactly(s: Session, op: Op)
    requires Registered(s)
    ensures Registered(Step(s, op)) <==> Harmless(s, op)
  {
    match op
    case Subscribe(c, u) => SubscribeKeepsRegistered(s, c, u);
    case Unsubscribe(c) => UnsubscribeKeepsRegisteredExactly(s, c);
    case Disconnect(c) => DisconnectKeepsRegistered(s, c);
  }

  lemma HarmlessFront(ops: seq<Op>)
    requires HarmlessRun(ops) && ops != []
    ensures HarmlessRun(ops[..|ops| - 1])
    ensures Harmless(Run(ops[..|ops| - 1]), ops[|ops| - 1])
  {
    var front := ops[..|ops| - 1];
    forall i | 0 <= i < |front| ensures Harmless(Run(front[..i]), front[i]) {
      assert front[..i] == ops[..i];
    }
  }

  /** Over every harmless run each socket's user is reached on that socket, so two sockets never speak for the
    same user; also when a socket subscribes again as another user. */
  lemma {:induction false} SessionInvariant(ops: seq<Op>)
    requires HarmlessRun(ops)
    ensures Registered(Run(ops))
    ensures forall c1: ClientId, c2: ClientId ::
              c1 in Run(ops).users && c2 in Run(ops).users && Run(ops).users[c1] == Run(ops).users[c2] ==> c1 == c2
    decreases |ops|
  {
    if ops != [] {
      HarmlessFront(ops);
      SessionInvariant(ops[..|ops| - 1]);
      StepKeepsRegisteredExactly(Run(ops[..|ops| - 1]), ops[|ops| - 1]);
    }
  }

  /** After each step of a run each socket's user is reached on that socket, exactly when the run is harmless. */
  lemma RegisteredThroughoutExactly(ops: seq<Op>)
    ensures (forall k :: 0 <= k <= |ops| ==> Registered(Run(ops[..k]))) <==> HarmlessRun(ops)
  {
    hide Registered, Harmless, Step;
    if HarmlessRun(ops) {
      forall k | 0 <= k <= |ops| ensures Registered(Run(ops[..k])) {
        forall i | 0 <= i < k ensures ops[..k][..i] == ops[..i] {
        }
        SessionInvariant(ops[..k]);
      }
    } else if forall k :: 0 <= k <= |ops| ==> Registered(Run(ops[..k])) {
      forall i | 0 <= i < |ops| ensures Harmless(Run(ops[..i]), ops[i]) {
        RunStep(ops, i);
        StepKeepsRegisteredExactly(Run(ops[..i]), ops[i]);
      }
    }
  }

  lemma RunStep(ops: seq<Op>, i: nat)
    requires i < |ops|
    ensures Run(ops[..i + 1]) == Step(Run(ops[..i]), ops[i])
  {
    assert ops[..i + 1][..i] == ops[..i];
  }

  predicate NamesNobody(op: Op) {
    op.Subscribe? && op.userId == NOBODY
  }

  /** Runs without a user called "null" are harmless. */
  lemma {:induction false} NobodyNamed(ops: seq<Op>)
    requires forall i :: 0 <= i < |ops| ==> !NamesNobody(ops[i])
    ensures HarmlessRun(ops) && !NobodyIn(Run(ops))
    decreases |ops|
  {
    if ops != [] {
      var front, op := ops[..|ops| - 1], ops[|ops| - 1];
      NobodyNamed(front);
      assert !NamesNobody(op);
      forall i | 0 <= i < |ops| ensures Harmless(Run(ops[..i]), ops[i]) {
        if i < |front| {
          assert front[..i] == ops[..i] && front[i] == ops[i];
        }
      }
    }
  }

  /** Without the condition the invariant is lost in two steps. */
  lemma NobodyBreaksTheInvariant()
    ensures !Registered(Run([Subscribe("a", NOBODY), Unsubscribe("b")]))
  {
    var ops := [Subscribe("a", NOBODY), Unsubscribe("b")];
    var a: ClientId := "a";
    var first := AfterSubscribe(EMPTY, a, NOBODY);
    assert ops[..1] == [Subscribe("a", NOBODY)] && ops[..1][..0] == [];
    assert Run(ops[..1]) == first;
    assert Run(ops) == AfterUnsubscribe(first, "b");
    assert a in first.users && first.users[a] == NOBODY;
    UnsubscribeKeepsRegisteredExactly(first, "b");
  }

  // ---------- Late disconnects ----------

  /** A disconnect removes a user's entry only if that entry names the disconnecting socket. */
  lemma DisconnectRemovesOnlyItsOwn(s: Session, c: ClientId, u: string)
    requires Registered(s)
    ensures Get(AfterDisconnect(s, c).sockets, u)
         == if Get(s.users, c) == Some(u) then None else Get(s.sockets, u)
    ensures Get(s.users, c) == Some(u) ==> Get(s.sockets, u) == Some(c)
  {
  }

  /** Once a newer socket has taken over a user, the displaced socket's disconnect changes nothing, usage
    events included. */
  lemma LateDisconnectIsHarmless(s: Session, displaced: ClientId, c: ClientId, u: string)
    requires Registered(s)
    requires displaced != c && u != "" && Get(s.users, displaced) == Some(u)
    ensures AfterDisconnect(AfterSubscribe(s, c, u), displaced) == AfterSubscribe(s, c, u)
  {
    var s' := AfterSubscribe(s, c, u);
    assert displaced !in s'.users;
    assert s'.users - {displaced} == s'.users;
  }

  // ---------- When the two maps are inverse ----------

  ghost predicate Inverse(s: Session) {
    && Registered(s)
    && forall u: string :: u in s.sockets ==> Get(s.users, s.sockets[u]) == Some(u)
  }

  /** Subscribing keeps the maps inverse exactly when the socket had no user, or this one already. */
  lemma SubscribeKeepsInverseExactly(s: Session, c: ClientId, u: string)
    requires Inverse(s) && u != ""
    ensures Inverse(AfterSubscribe(s, c, u)) <==> c !in s.users || s.users[c] == u
  {
    var s' := AfterSubscribe(s, c, u);
    SubscribeKeepsRegistered(s, c, u);
    if c in s.users && s.users[c] != u {
      assert s'.sockets[s.users[c]] == c;
    } else {
      forall v: string | v in s'.sockets ensures Get(s'.users, s'.sockets[v]) == Some(v) {
        if v != u {
          assert s.sockets[v] != c;
          assert Get(s.sockets, u) != Some(s.sockets[v]);
        }
      }
    }
  }

  lemma LeavingKeepsInverse(s: Session, c: ClientId)
    requires Inverse(s)
    ensures Inverse(AfterUnsubscribe(s, c)) <==> c in s.users || !NobodyIn(s)
    ensures Inverse(AfterDisconnect(s, c))
  {
    hide NobodyIn;
    UnsubscribeKeepsRegisteredExactly(s, c);
    DisconnectKeepsRegistered(s, c);
    if c !in s.users && !NobodyIn(s) {
      NobodyHasNoEntry(s);
    }
  }

  lemma NobodyHasNoEntry(s: Session)
    requires Inverse(s) && !NobodyIn(s)
    ensures NOBODY !in s.sockets
  {
  }

  /** A socket changes user only after giving up the one it has. */
  ghost predicate Patient(s: Session, op: Op) {
    op.Subscribe? && op.userId != "" ==> op.clientId !in s.users || s.users[op.clientId] == op.userId
  }

  ghost predicate Disciplined(ops: seq<Op>) {
    forall i :: 0 <= i < |ops| ==> Patient(Run(ops[..i]), ops[i])
  }

  lemma StepKeepsInverseExactly(s: Session, op: Op)
    requires Inverse(s)
    ensures Inverse(Step(s, op)) <==> Patient(s, op) && Harmless(s, op)
  {
    match op
    case Subscribe(c, u) => if u != "" { SubscribeKeepsInverseExactly(s, c, u); }
    case Unsubscribe(c) => LeavingKeepsInverse(s, c);
    case Disconnect(c) => LeavingKeepsInverse(s, c);
  }

  lemma {:induction false} DisciplinedRunsAreInverse(ops: seq<Op>)
    requires Disciplined(ops) && HarmlessRun(ops)
    ensures Inverse(Run(ops))
    ensures forall u: string, c: ClientId ::
              u != "" ==> (Target(Run(ops), u) == Some(c) <==> Get(Run(ops).users, c) == Some(u))
    decreases |ops|
  {
    if ops != [] {
      var front := ops[..|ops| - 1];
      forall i | 0 <= i < |front| ensures front[..i] == ops[..i] && front[i] == ops[i] {
      }
      DisciplinedRunsAreInverse(front);
      HarmlessFront(ops);
      StepKeepsInverseExactly(Run(front), ops[|ops| - 1]);
    }
  }

  /** The two maps are inverse after each step of a run exactly when the run is disciplined and harmless. */
  lemma InverseThroughoutExactly(ops: seq<Op>)
    ensures (forall k :: 0 <= k <= |ops| ==> Inverse(Run(ops[..k]))) <==> Disciplined(ops) && HarmlessRun(ops)
  {
    hide Inverse, Patient, Harmless, Step;
    if Disciplined(ops) && HarmlessRun(ops) {
      forall k | 0 <= k <= |ops| ensures Inverse(Run(ops[..k])) {
        forall i | 0 <= i < k ensures ops[..k][..i] == ops[..i] {
        }
        DisciplinedRunsAreInverse(ops[..k]);
      }
    } else if forall k :: 0 <= k <= |ops| ==> Inverse(Run(ops[..k])) {
      forall i | 0 <= i < |ops| ensures Patient(Run(ops[..i]), ops[i]) && Harmless(Run(ops[..i]), ops[i]) {
        RunStep(ops, i);
        StepKeepsInverseExactly(Run(ops[..i]), ops[i]);
      }
    }
  }

  /** The half of it that users called "null" do not touch: whoever has an entry speaks through its socket. */
  ghost predicate Known(s: Session) {
    forall u: string :: u in s.sockets ==> u != "" && Get(s.users, s.sockets[u]) == Some(u)
  }

  lemma PatientKeepsKnown(s: Session, op: Op)
    requires Known(s) && Patient(s, op)
    ensures Known(Step(s, op))
  {
    var s' := Step(s, op);
    forall v: string | v in s'.sockets ensures v != "" && Get(s'.users, s'.sockets[v]) == Some(v) {
      if op.Subscribe? && v == op.userId {
        assert s'.sockets[v] == op.clientId;
      } else {
        assert v in s.sockets && s'.sockets[v] == s.sockets[v];
      }
    }
  }

  lemma {:induction false} DisciplinedRunsAreKnown(ops: seq<Op>)
    requires Disciplined(ops)
    ensures Known(Run(ops))
    decreases |ops|
  {
    if ops != [] {
      var front := ops[..|ops| - 1];
      forall i | 0 <= i < |front| ensures front[..i] == ops[..i] && front[i] == ops[i] {
      }
      DisciplinedRunsAreKnown(front);
      PatientKeepsKnown(Run(front), ops[|ops| - 1]);
    }
  }

  // ---------- Usage events ----------

  /** The statuses reported for a user, in order. */
  function Statuses(usage: seq<Usage>, u: string): seq<int> {
    if usage == [] then []
    else
      var last := usage[|usage| - 1];
      Statuses(usage[..|usage| - 1], u) + if last.userId == u then [last.status] else []
  }

  function Count(statuses: seq<int>, status: int): nat {
    if statuses == [] then 0
    else Count(statuses[..|statuses| - 1], status) + if statuses[|statuses| - 1] == status then 1 else 0
  }

  /** How often an unsubscribe took a user's entry away; it reports no event. */
  function Dropped(ops: seq<Op>, u: string): nat {
    if ops == [] then 0
    else
      var front := ops[..|ops| - 1];
      Dropped(front, u) + DroppedBy(Run(front), ops[|ops| - 1], u)
  }

  function Entries(s: Session, u: string): nat {
    if u in s.sockets then 1 else 0
  }

  lemma StatusesStep(usage: seq<Usage>, e: Usage, u: string)
    ensures Statuses(usage + [e], u) == Statuses(usage, u) + if e.userId == u then [e.status] else []
  {
    assert (usage + [e])[..|usage|] == usage;
  }

  lemma CountStep(statuses: seq<int>, x: int, status: int)
    ensures Count(statuses + [x], status) == Count(statuses, status) + if x == status then 1 else 0
  {
    assert (statuses + [x])[..|statuses|] == statuses;
  }

  /** What one step adds to a user's statuses. */
  function Reported(before: Session, op: Op, u: string): seq<int> {
    match op
    case Subscribe(c, v) => if v == u && u != "" && u !in before.sockets then [1] else []
    case Unsubscribe(c) => []
    case Disconnect(c) => if u != "" && Get(before.users, c) == Some(u) then [0] else []
  }

  lemma ReportedByStep(before: Session, op: Op, u: string)
    ensures Statuses(Step(before, op).usage, u) == Statuses(before.usage, u) + Reported(before, op, u)
  {
    match op
    case Subscribe(c, v) => StatusesStep(before.usage, Usage(v, c, 1), u);
    case Unsubscribe(c) =>
    case Disconnect(c) =>
      if c in before.users {
        StatusesStep(before.usage, Usage(before.users[c], c, 0), u);
      }
  }

  lemma CountReported(statuses: seq<int>, reported: seq<int>, status: int)
    requires |reported| <= 1
    ensures Count(statuses + reported, status)
         == Count(statuses, status) + if reported == [status] then 1 else 0
  {
    if reported == [] {
      assert statuses + reported == statuses;
    } else {
      CountStep(statuses, reported[0], status);
    }
  }

  function DroppedBy(before: Session, op: Op, u: string): nat {
    if op.Unsubscribe? && u in before.sockets && u !in Step(before, op).sockets then 1 else 0
  }

  /** A disconnect reports a user offline who has no entry. */
  function SpuriousBy(before: Session, op: Op, u: string): nat {
    if op.Disconnect? && u != "" && Get(before.users, op.clientId) == Some(u) && u !in before.sockets then 1 else 0
  }

  function Spurious(ops: seq<Op>, u: string): nat {
    if ops == [] then 0
    else
      var front := ops[..|ops| - 1];
      Spurious(front, u) + SpuriousBy(Run(front), ops[|ops| - 1], u)
  }

  lemma BalanceOfStep(before: Session, op: Op, u: string)
    ensures var reported := Reported(before, op, u);
            && reported in {[], [0], [1]}
            && (if reported == [1] then 1 else 0) + SpuriousBy(before, op, u) + Entries(before, u)
            == (if reported == [0] then 1 else 0) + DroppedBy(before, op, u) + Entries(Step(before, op), u)
  {
  }

  /** Over every run: the 1s reported for a user, and the disconnects that reported it without an entry, are the
    0s, plus the entries taken away unreported, plus one if the user has an entry now. */
  lemma {:induction false} UsageBalances(ops: seq<Op>, u: string)
    ensures var statuses := Statuses(Run(ops).usage, u);
            Count(statuses, 1) + Spurious(ops, u) == Count(statuses, 0) + Dropped(ops, u) + Entries(Run(ops), u)
    decreases |ops|
  {
    hide Step, Reported, Entries, Count, Statuses, SpuriousBy, DroppedBy;
    if ops != [] {
      var front := ops[..|ops| - 1];
      var before, op := Run(front), ops[|ops| - 1];
      UsageBalances(front, u);
      ReportedByStep(before, op, u);
      BalanceOfStep(before, op, u);
      CountReported(Statuses(before.usage, u), Reported(before, op, u), 0);
      CountReported(Statuses(before.usage, u), Reported(before, op, u), 1);
    } else {
      NoUsageYet(u);
    }
  }

  lemma NoUsageYet(u: string)
    ensures Statuses(EMPTY.usage, u) == [] && Count([], 0) == 0 && Count([], 1) == 0 && Entries(EMPTY, u) == 0
  {
  }

  /** In harmless runs no disconnect reports a user without an entry. */
  lemma {:induction false} NothingSpurious(ops: seq<Op>, u: string)
    requires HarmlessRun(ops)
    ensures Spurious(ops, u) == 0
    decreases |ops|
  {
    if ops != [] {
      HarmlessFront(ops);
      NothingSpurious(ops[..|ops| - 1], u);
      SessionInvariant(ops[..|ops| - 1]);
    }
  }

  /** A user called "null" can be reported offline without an entry. */
  lemma NobodyIsReportedWithoutEntry()
    ensures Spurious([Subscribe("a", NOBODY), Unsubscribe("b"), Disconnect("a")], NOBODY) == 1
  {
    var ops := [Subscribe("a", NOBODY), Unsubscribe("b"), Disconnect("a")];
    var first := AfterSubscribe(EMPTY, "a", NOBODY);
    assert ops[..2] == [Subscribe("a", NOBODY), Unsubscribe("b")] && ops[..2][..1] == [Subscribe("a", NOBODY)];
    assert ops[..2][..1][..0] == [];
    assert Run(ops[..2][..1]) == first;
    assert Run(ops[..2]) == AfterUnsubscribe(first, "b");
    assert Spurious(ops[..2][..1], NOBODY) == 0 && Spurious(ops[..2], NOBODY) == 0;
  }

  // ---------- When usage events alternate ----------

  predicate Alternates(statuses: seq<int>) {
    forall i :: 0 <= i < |statuses| ==> statuses[i] == if i % 2 == 0 then 1 else 0
  }

  /** The user's statuses read 1, 0, 1, 0 and so on, and end in 1 exactly when the user has an entry. */
  predicate InTurn(s: Session, u: string) {
    Alternates(Statuses(s.usage, u)) && |Statuses(s.usage, u)| % 2 == Entries(s, u)
  }

  ghost predicate InTurnThroughout(ops: seq<Op>, u: string) {
    forall k :: 0 <= k <= |ops| ==> InTurn(Run(ops[..k]), u)
  }

  /** What the session invariant says of one user. */
  ghost predicate RegisteredFor(s: Session, u: string) {
    forall c: ClientId :: Get(s.users, c) == Some(u) ==> u != "" && Get(s.sockets, u) == Some(c)
  }

  lemma {:induction false} NotDroppedIsRegistered(ops: seq<Op>, u: string)
    requires Dropped(ops, u) == 0
    ensures RegisteredFor(Run(ops), u)
    decreases |ops|
  {
    if ops != [] {
      NotDroppedIsRegistered(ops[..|ops| - 1], u);
      StepKeepsRegisteredFor(Run(ops[..|ops| - 1]), ops[|ops| - 1], u);
    }
  }

  lemma StepKeepsRegisteredFor(s: Session, op: Op, u: string)
    requires RegisteredFor(s, u) && DroppedBy(s, op, u) == 0
    ensures RegisteredFor(Step(s, op), u)
  {
    var s' := Step(s, op);
    forall c: ClientId | Get(s'.users, c) == Some(u) ensures u != "" && Get(s'.sockets, u) == Some(c) {
      match op
      case Subscribe(d, v) => assert c != d ==> Get(s.users, c) == Some(u);
      case Unsubscribe(d) =>
        assert Get(s.users, c) == Some(u) && u in s.sockets;
        assert u in s'.sockets;
      case Disconnect(d) =>
        assert Get(s.users, c) == Some(u) && Get(s.users, d) != Some(u);
    }
  }

  lemma AlternatesSnoc(statuses: seq<int>, x: int)
    requires Alternates(statuses)
    ensures Alternates(statuses + [x]) <==> x == if |statuses| % 2 == 0 then 1 else 0
  {
    assert (statuses + [x])[|statuses|] == x;
  }

  lemma StepInTurnExactly(s: Session, op: Op, u: string)
    requires InTurn(s, u) && RegisteredFor(s, u)
    ensures InTurn(Step(s, op), u) <==> DroppedBy(s, op, u) == 0
  {
    hide Step, Statuses;
    var before, reported := Statuses(s.usage, u), Reported(s, op, u);
    ReportedByStep(s, op, u);
    BalanceOfStep(s, op, u);
    assert SpuriousBy(s, op, u) == 0;
    if reported != [] {
      AlternatesSnoc(before, reported[0]);
      assert before + reported == before + [reported[0]];
    } else {
      assert before + reported == before;
    }
  }

  /** After each step of a run a user's statuses are in turn exactly when no unsubscription has taken an entry
    of the user away. */
  lemma {:induction false} UsageAlternatesExactly(ops: seq<Op>, u: string)
    ensures InTurnThroughout(ops, u) <==> Dropped(ops, u) == 0
    decreases |ops|
  {
    hide Step, InTurn, RegisteredFor, DroppedBy;
    if ops == [] {
      NobodyYetInTurn(u);
      assert ops[..0] == [];
    } else {
      var front := ops[..|ops| - 1];
      UsageAlternatesExactly(front, u);
      forall k | 0 <= k <= |front| ensures front[..k] == ops[..k] {
      }
      assert front[..|front|] == front && ops[..|ops|] == ops;
      assert InTurnThroughout(ops, u) <==> InTurnThroughout(front, u) && InTurn(Run(ops), u);
      if InTurnThroughout(front, u) {
        NotDroppedIsRegistered(front, u);
        StepInTurnExactly(Run(front), ops[|ops| - 1], u);
      }
    }
  }

  lemma NobodyYetInTurn(u: string)
    ensures InTurn(EMPTY, u)
  {
  }

  /** In particular they are where nobody unsubscribes. */
  lemma UsageAlternates(ops: seq<Op>, u: string)
    requires forall i :: 0 <= i < |ops| ==> !ops[i].Unsubscribe?
    ensures Alternates(Statuses(Run(ops).usage, u))
    ensures |Statuses(Run(ops).usage, u)| % 2 == Entries(Run(ops), u)
  {
    NothingDropped(ops, u);
    UsageAlternatesExactly(ops, u);
    assert ops[..|ops|] == ops;
    assert InTurn(Run(ops), u);
  }

  lemma {:induction false} NothingDropped(ops: seq<Op>, u: string)
    requires forall i :: 0 <= i < |ops| ==> !ops[i].Unsubscribe?
    ensures Dropped(ops, u) == 0
    decreases |ops|
  {
    if ops != [] {
      NothingDropped(ops[..|ops| - 1], u);
    }
  }

  /** The failing input: a user who unsubscribes and comes back is reported online twice in a row. */
  lemma OnlineTwiceInARow()
    ensures Statuses(Run([Subscribe("c", "1"), Unsubscribe("c"), Subscribe("c", "1")]).usage, "1") == [1, 1]
  {
    var ops := [Subscribe("c", "1"), Unsubscribe("c"), Subscribe("c", "1")];
    var c: ClientId := "c";
    var first := AfterSubscribe(EMPTY, c, "1");
    assert ops[..2] == [Subscribe("c", "1"), Unsubscribe("c")] && ops[..2][..1] == [Subscribe("c", "1")];
    assert ops[..2][..1][..0] == [];
    assert Run(ops[..2][..1]) == first;
    assert Run(ops[..2]) == AfterUnsubscribe(first, c);
    assert Run(ops) == AfterSubscribe(AfterUnsubscribe(first, c), c, "1");
    var event := Usage("1", c, 1);
    assert Run(ops).usage == [event] + [event];
    StatusesStep([event], event, "1");
    StatusesStep([], event, "1");
    assert [] + [event] == [event];
  }
}
