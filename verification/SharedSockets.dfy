/** When a group message reaches a socket twice: two users share a socket. */
module SharedSockets {
  import opened Wrappers
  import opened Decimal
  import opened GroupStore
  import opened GroupInvariants
  import opened GroupEffects
  import opened GroupStaleness
  import opened Sessions
  import opened Delivery

  // ---------- One message ----------

  predicate AllDifferent<T(==)>(xs: seq<T>) {
    forall i, j :: 0 <= i < j < |xs| ==> xs[i] != xs[j]
  }

  /** Two users are reached on the same socket. */
  predicate Share(session: Session, u: nat, v: nat) {
    u != v && Target(session, Print(u)).Some? && Target(session, Print(u)) == Target(session, Print(v))
  }

  lemma {:induction false} RecipientsDiffer(entries: seq<CacheEntry>, sender: Option<nat>)
    requires DifferentUsers(entries)
    ensures AllDifferent(Recipients(entries, sender))
    decreases |entries|
  {
    if entries != [] {
      var front, last := entries[..|entries| - 1], entries[|entries| - 1];
      RecipientsDiffer(front, sender);
      RecipientsAre(front, sender, last.userId);
      assert last.userId !in Recipients(front, sender);
    }
  }

  lemma {:induction false} RegistrationsDifferExactly(session: Session, users: seq<nat>)
    requires AllDifferent(users)
    ensures AllDifferent(Registrations(session, users)) <==>
            forall u: nat, v: nat :: u in users && v in users ==> !Share(session, u, v)
    decreases |users|
  {
    if users != [] {
      var front, last := users[..|users| - 1], users[|users| - 1];
      assert users == front + [last];
      var target := Target(session, Print(last));
      hide Print, AllDifferent;
      LastDiffers(users);
      RegistrationsDifferExactly(session, front);
      assert forall u: nat :: !Share(session, u, u);
      assert forall u: nat :: Share(session, last, u) <==> Share(session, u, last);
      if target.Some? {
        RegistrationsAre(session, front, target.value);
        DifferentSnoc(Registrations(session, front), target.value);
        assert target.value in Registrations(session, front) <==> exists u: nat :: u in front && Share(session, u, last);
      } else {
        assert forall u: nat :: !Share(session, u, last);
        assert Registrations(session, users) == Registrations(session, front);
      }
    }
  }

  lemma LastDiffers<T>(xs: seq<T>)
    requires AllDifferent(xs) && xs != []
    ensures AllDifferent(xs[..|xs| - 1]) && xs[|xs| - 1] !in xs[..|xs| - 1]
  {
    assert forall i :: 0 <= i < |xs| - 1 ==> xs[..|xs| - 1][i] == xs[i];
  }

  lemma DifferentSnoc<T>(front: seq<T>, last: T)
    ensures AllDifferent(front + [last]) <==> AllDifferent(front) && last !in front
  {
    var xs := front + [last];
    if AllDifferent(xs) {
      assert forall i :: 0 <= i < |front| ==> front[i] == xs[i] != xs[|front|];
    }
  }

  /** Sockets get a message once each exactly when no two of the members it goes to share a socket. */
  lemma FanOutDiffersExactly(s: Store, session: Session, g: string, sender: Option<nat>)
    requires Invariant(s)
    ensures AllDifferent(FanOut(s.cache, session, g, sender)) <==>
            forall u: nat, v: nat :: Reached(s, g, sender, u) && Reached(s, g, sender, v) ==> !Share(session, u, v)
  {
    hide Share, AllDifferent, CachedActive, ActiveInCache;
    if g in s.cache {
      var users := Recipients(s.cache[g], sender);
      CachedDiffer(s, g);
      RecipientsDiffer(s.cache[g], sender);
      RegistrationsDifferExactly(session, users);
      forall u: nat ensures u in users <==> Reached(s, g, sender, u) {
        RecipientsAre(s.cache[g], sender, u);
        CachedActiveIs(s, g, u);
      }
    } else {
      NobodyCached(s, g);
    }
  }

  /** The members a group message goes to. */
  predicate Reached(s: Store, g: string, sender: Option<nat>, u: nat) {
    CachedActive(s, g, u) && sender != Some(u)
  }

  lemma CachedActiveIs(s: Store, g: string, u: nat)
    requires g in s.cache
    ensures CachedActive(s, g, u) <==> ActiveInCache(s.cache[g], u)
  {
  }

  lemma NobodyCached(s: Store, g: string)
    requires g !in s.cache
    ensures forall u: nat :: !CachedActive(s, g, u)
    ensures AllDifferent<ClientId>([])
  {
  }

  // ---------- All messages ----------

  /** No two users share a socket. */
  ghost predicate Unshared(session: Session) {
    forall u: nat, v: nat :: !Share(session, u, v)
  }

  /** No socket gets a group message twice, whatever was done to the groups before, exactly when no two users
    share a socket. */
  lemma NoSocketTwiceExactly(session: Session)
    ensures (forall ops: seq<GroupStore.Op>, g: string, sender: Option<nat> ::
              FreshIds(ops) ==> AllDifferent(FanOut(GroupStore.Run(ops).cache, session, g, sender)))
       <==> Unshared(session)
  {
    hide Invariant, Share, AllDifferent, FreshIds, FanOut, Reached;
    if Unshared(session) {
      forall ops: seq<GroupStore.Op>, g: string, sender: Option<nat> | FreshIds(ops)
        ensures AllDifferent(FanOut(GroupStore.Run(ops).cache, session, g, sender))
      {
        RunKeeps(ops);
        FanOutDiffersExactly(GroupStore.Run(ops), session, g, sender);
      }
    } else {
      var u: nat, v: nat :| Share(session, u, v);
      var w := u + v + 1;
      TheThree("g", w, u, v);
      RunKeeps(GroupOfThree("g", w, u, v));
      FanOutDiffersExactly(GroupStore.Run(GroupOfThree("g", w, u, v)), session, "g", Some(w));
    }
  }

  function GroupOfThree(g: string, w: nat, u: nat, v: nat): seq<GroupStore.Op> {
    [Create(g, w, 4), Add(g, [u, v], MEMBER, w)]
  }

  lemma TheThree(g: string, w: nat, u: nat, v: nat)
    requires w != u && w != v
    ensures FreshIds(GroupOfThree(g, w, u, v))
    ensures var s := GroupStore.Run(GroupOfThree(g, w, u, v)); Reached(s, g, Some(w), u) && Reached(s, g, Some(w), v)
  {
    hide Added, InSync, Active, CachedActive;
    var ops := GroupOfThree(g, w, u, v);
    var first := Created(GroupStore.EMPTY, g, w, 4);
    assert ops[..0] == [] && ops[..1] == [ops[0]] && ops[..1][..0] == [];
    assert GroupStore.Run(ops[..1]) == first;
    var s := Added(first, g, [u, v], MEMBER, w);
    assert GroupStore.Run(ops) == s;
    OwnListInSync(first, g, [u, v], MEMBER, w, w, 0);
    forall x: nat | x in [u, v] ensures CachedActive(s, g, x) {
      AddedActive(first, g, [u, v], MEMBER, w, g, x);
      InSyncActive(s, g, x);
    }
    assert u in [u, v] && v in [u, v];
  }

  // ---------- Which subscriptions make users share a socket ----------

  ghost predicate IsNumeral(u: string) {
    exists n: nat :: u == Print(n)
  }

  /** No other user than `u` is reached on the socket. */
  ghost predicate FreeFor(session: Session, c: ClientId, u: string) {
    forall v: nat :: Print(v) != u ==> Target(session, Print(v)) != Some(c)
  }

  /** A subscription keeps sockets unshared exactly when the user is no number at all or the socket has been
    given up by every other user. */
  lemma SubscribeKeepsUnsharedExactly(s: Session, c: ClientId, u: string)
    requires Unshared(s)
    ensures Unshared(AfterSubscribe(s, c, u)) <==> !IsNumeral(u) || FreeFor(s, c, u)
  {
    hide Print;
    var s' := AfterSubscribe(s, c, u);
    forall n: nat ensures Print(n) != "" {
      PrintIsSome(n);
    }
    assert u != "" ==> forall n: nat :: Target(s', Print(n)) == if Print(n) == u then Some(c) else Target(s, Print(n));
    forall m: nat, n: nat ensures Print(m) == Print(n) ==> m == n {
      if Print(m) == Print(n) {
        PrintInjective(m, n);
      }
    }
    if IsNumeral(u) {
      var n: nat :| u == Print(n);
      if !FreeFor(s, c, u) {
        var v: nat :| Print(v) != u && Target(s, Print(v)) == Some(c);
        assert Share(s', n, v);
      } else {
        forall x: nat, y: nat ensures !Share(s', x, y) {
          assert !Share(s, x, y);
        }
      }
    } else {
      forall x: nat, y: nat ensures !Share(s', x, y) {
        assert !Share(s, x, y);
      }
    }
  }

  lemma PrintIsSome(n: nat)
    ensures Print(n) != ""
  {
  }

  lemma LeavingKeepsUnshared(s: Session, c: ClientId)
    requires Unshared(s)
    ensures Unshared(AfterUnsubscribe(s, c)) && Unshared(AfterDisconnect(s, c))
  {
    hide Print;
    forall u: nat, v: nat
      ensures !Share(AfterUnsubscribe(s, c), u, v) && !Share(AfterDisconnect(s, c), u, v)
    {
      assert !Share(s, u, v);
    }
  }

  /** Every subscription of a numbered user is on a socket no other such user is reached on. */
  ghost predicate Separate(events: seq<Sessions.Op>) {
    forall i :: 0 <= i < |events| ==> KeepsApart(Sessions.Run(events[..i]), events[i])
  }

  ghost predicate KeepsApart(s: Session, e: Sessions.Op) {
    e.Subscribe? && IsNumeral(e.userId) ==> FreeFor(s, e.clientId, e.userId)
  }

  lemma StepKeepsUnsharedExactly(s: Session, e: Sessions.Op)
    requires Unshared(s)
    ensures Unshared(Sessions.Step(s, e)) <==> KeepsApart(s, e)
  {
    match e
    case Subscribe(c, u) => SubscribeKeepsUnsharedExactly(s, c, u);
    case Unsubscribe(c) => LeavingKeepsUnshared(s, c);
    case Disconnect(c) => LeavingKeepsUnshared(s, c);
  }

  lemma {:induction false} SeparateIsUnshared(events: seq<Sessions.Op>)
    requires Separate(events)
    ensures Unshared(Sessions.Run(events))
    decreases |events|
  {
    hide Unshared, KeepsApart, Sessions.Step;
    if events == [] {
      NothingShared();
    } else {
      var front := events[..|events| - 1];
      forall i | 0 <= i < |front| ensures front[..i] == events[..i] && front[i] == events[i] {
      }
      SeparateIsUnshared(front);
      StepKeepsUnsharedExactly(Sessions.Run(front), events[|events| - 1]);
    }
  }

  lemma NothingShared()
    ensures Unshared(Sessions.EMPTY)
  {
  }

  /** Sockets are unshared after each step of a run exactly when every subscription keeps them apart. */
  lemma UnsharedThroughoutExactly(events: seq<Sessions.Op>)
    ensures (forall k :: 0 <= k <= |events| ==> Unshared(Sessions.Run(events[..k]))) <==> Separate(events)
  {
    hide Unshared, KeepsApart, Sessions.Step;
    if Separate(events) {
      forall k | 0 <= k <= |events| ensures Unshared(Sessions.Run(events[..k])) {
        forall i | 0 <= i < k ensures events[..k][..i] == events[..i] {
        }
        SeparateIsUnshared(events[..k]);
      }
    } else if forall k :: 0 <= k <= |events| ==> Unshared(Sessions.Run(events[..k])) {
      forall i | 0 <= i < |events| ensures KeepsApart(Sessions.Run(events[..i]), events[i]) {
        assert events[..i + 1][..i] == events[..i];
        assert Sessions.Run(events[..i + 1]) == Sessions.Step(Sessions.Run(events[..i]), events[i]);
        StepKeepsUnsharedExactly(Sessions.Run(events[..i]), events[i]);
      }
    }
  }

  /** No socket gets a group message twice over any run in which subscriptions keep users apart. */
  lemma NoSocketTwice(ops: seq<GroupStore.Op>, events: seq<Sessions.Op>, g: string, sender: Option<nat>)
    requires FreshIds(ops) && Separate(events)
    ensures AllDifferent(FanOut(GroupStore.Run(ops).cache, Sessions.Run(events), g, sender))
  {
    SeparateIsUnshared(events);
    NoSocketTwiceExactly(Sessions.Run(events));
  }

  /** Sockets that change user only after giving up the one they have keep users apart. */
  lemma DisciplinedIsSeparate(events: seq<Sessions.Op>)
    requires Disciplined(events)
    ensures Separate(events)
  {
    hide Unshared, Known;
    forall k | 0 <= k <= |events| ensures Unshared(Sessions.Run(events[..k])) {
      var front := events[..k];
      forall i | 0 <= i < k ensures front[..i] == events[..i] && front[i] == events[i] {
      }
      DisciplinedRunsAreKnown(front);
      KnownIsUnshared(Sessions.Run(front));
    }
    UnsharedThroughoutExactly(events);
  }

  lemma KnownIsUnshared(s: Session)
    requires Known(s)
    ensures Unshared(s)
  {
    hide Print;
    forall u: nat, v: nat ensures !Share(s, u, v) {
      if Share(s, u, v) && Print(u) == Print(v) {
        PrintInjective(u, v);
      }
    }
  }

  /** The failing input: one socket subscribes as user 1 and then as user 2, and a member of their group writes. */
  lemma OneSocketTwoUsers()
    ensures var session := Sessions.Run([Subscribe("c", "1"), Subscribe("c", "2")]);
            !AllDifferent(FanOut(GroupStore.Run(GroupOfThree("g", 4, 1, 2)).cache, session, "g", Some(4)))
  {
    hide Sessions.Run, GroupStore.Run, Invariant, AllDifferent, FanOut, Reached;
    var session := Sessions.Run([Subscribe("c", "1"), Subscribe("c", "2")]);
    SharedByTwo();
    assert Print(1) == "1" && Print(2) == "2";
    assert Share(session, 1, 2);
    TheThree("g", 4, 1, 2);
    RunKeeps(GroupOfThree("g", 4, 1, 2));
    FanOutDiffersExactly(GroupStore.Run(GroupOfThree("g", 4, 1, 2)), session, "g", Some(4));
  }

  lemma SharedByTwo()
    ensures var session := Sessions.Run([Subscribe("c", "1"), Subscribe("c", "2")]);
            Target(session, "1") == Some("c") && Target(session, "2") == Some("c")
  {
    var events := [Subscribe("c", "1"), Subscribe("c", "2")];
    assert events[..1] == [Subscribe("c", "1")] && events[..1][..0] == [];
    var first := AfterSubscribe(Sessions.EMPTY, "c", "1");
    assert Sessions.Run(events[..1]) == first;
    assert Sessions.Run(events) == AfterSubscribe(first, "c", "2");
  }
}
