/** The third copy of a group's membership: the receivers of its conversation. */
module GroupReceivers {
  import opened Wrappers
  import opened GroupStore
  import opened ReceiverMerge
  import opened GroupInvariants
  import opened GroupEffects

  /** The receivers of a group's conversation are its members, deleted ones included, each once. */
  ghost predicate Agrees(s: Store, g: string) {
    g in s.conversations ==>
      var ids := Ids(s.conversations[g].receivers);
      Distinct(ids) && forall m: nat :: m in ids <==> Has(s.members, g, m)
  }

  ghost predicate Agreement(s: Store) {
    && (forall g :: g in s.groups ==> g in s.conversations)
    && forall g: string :: Agrees(s, g)
  }

  lemma MarkedIds(receivers: seq<Receiver>, m: nat, action: Action)
    ensures Ids(Marked(receivers, m, action)) == Ids(receivers)
  {
  }

  lemma JoinedHas(docs: seq<MemberDoc>, g: string, ids: seq<nat>, memberType: int, actor: nat, h: string, x: nat)
    ensures Has(Joined(docs, g, ids, memberType, actor), h, x) <==> Has(docs, h, x) || (h == g && x in ids)
  {
    RevivedHas(Enrolled(docs, g, ids, memberType, actor), ids, h, x);
    EnrolledHas(docs, g, ids, memberType, actor, h, x);
  }

  /** Adding keeps receivers and members in agreement exactly when no id is given twice. */
  lemma AddedAgreesExactly(s: Store, g: string, ids: seq<nat>, memberType: int, actor: nat)
    requires Agreement(s) && g in s.groups
    ensures Agreement(Added(s, g, ids, memberType, actor)) <==> Distinct(ids)
  {
    var after := Added(s, g, ids, memberType, actor);
    var receivers := s.conversations[g].receivers;
    assert after.conversations[g].receivers == WithAdded(receivers, ids);
    assert Agrees(s, g);
    AddedDistinctExactly(receivers, ids);
    forall h: string ensures h != g ==> Agrees(after, h) {
      forall m: nat ensures Has(after.members, h, m) <==> Has(s.members, h, m) || (h == g && m in ids) {
        JoinedHas(s.members, g, ids, memberType, actor, h, m);
      }
      assert Agrees(s, h);
    }
    forall m: nat
      ensures m in Ids(after.conversations[g].receivers) <==> Has(after.members, g, m)
    {
      JoinedHas(s.members, g, ids, memberType, actor, g, m);
      AddedMembers(receivers, ids, m);
    }
    assert Agrees(after, g) <==> Distinct(ids);
  }

  /** Removing keeps the agreement exactly when the member exists, in a group that has a conversation. */
  lemma RemovedAgreesExactly(s: Store, g: string, m: nat, actor: nat, at: int)
    requires Agreement(s)
    ensures Agreement(Removed(s, g, m, actor, at)) <==> Has(s.members, g, m) || g !in s.conversations
  {
    var after := Removed(s, g, m, actor, at);
    forall h: string, x: nat ensures Has(after.members, h, x) <==> Has(s.members, h, x) || (h == g && x == m) {
      UpsertedHas(s.members, g, m, Strike(at), h, x);
    }
    if g in s.conversations {
      MarkedIds(s.conversations[g].receivers, m, LeaveAction(m, actor, at));
      assert Agrees(s, g);
      assert Ids(after.conversations[g].receivers) == Ids(s.conversations[g].receivers);
    }
    forall h: string ensures h != g ==> Agrees(after, h) {
      assert Agrees(s, h);
    }
    assert Agrees(after, g) <==> Has(s.members, g, m) || g !in s.conversations;
  }

  /** Creating keeps the agreement exactly when the database fails before the first write or after the
    third: in between there is a group without a conversation. */
  lemma CreatedAgreesExactly(s: Store, id: string, actor: nat, writes: nat)
    requires Agreement(s) && Fresh(s, id)
    ensures Agreement(Created(s, id, actor, writes)) <==> writes == 0 || writes >= 3
  {
    var after := Created(s, id, actor, writes);
    var admin := MemberDoc(id, actor, Some(ADMIN), Some(actor), Some(actor), None);
    if writes == 0 {
      assert after == s;
    } else if writes < 3 {
      assert id in after.groups && id !in after.conversations;
    } else {
      assert after.members == s.members + [admin];
      forall h: string, x: nat
        ensures Has(after.members, h, x) <==> Has(s.members, h, x) || (h == id && x == actor)
      {
        HasSnoc(s.members, admin, h, x);
      }
      forall h: string ensures Agrees(after, h) {
        assert Agrees(s, h);
        if h == id {
          assert after.conversations[id].receivers == [Plain(actor)];
          assert Ids([Plain(actor)]) == [actor];
          assert forall x: nat :: !Has(s.members, id, x);
        }
      }
    }
  }

  lemma HasSnoc(docs: seq<MemberDoc>, doc: MemberDoc, h: string, x: nat)
    ensures Has(docs + [doc], h, x) <==> Has(docs, h, x) || Is(doc, h, x)
  {
    var after := docs + [doc];
    if Has(docs, h, x) {
      var i :| 0 <= i < |docs| && Is(docs[i], h, x);
      assert Is(after[i], h, x);
    }
    if Is(doc, h, x) {
      assert Is(after[|docs|], h, x);
    }
  }

  lemma AdminSetAgrees(s: Store, g: string, m: nat, memberType: int)
    requires Agreement(s)
    ensures Agreement(AdminSet(s, g, m, memberType))
  {
    var after := AdminSet(s, g, m, memberType);
    SetTypeShape(s.members, g, m, memberType);
    forall h: string, x: nat ensures Has(after.members, h, x) <==> Has(s.members, h, x) {
      if Has(s.members, h, x) {
        var i :| 0 <= i < |s.members| && Is(s.members[i], h, x);
        assert Is(after.members[i], h, x);
      }
      if Has(after.members, h, x) {
        var i :| 0 <= i < |after.members| && Is(after.members[i], h, x);
        assert Is(s.members[i], h, x);
      }
    }
    forall h: string ensures Agrees(after, h) {
      assert Agrees(s, h);
    }
  }

  /** A careful step: no id is added twice in one call, only existing members are removed from a group with a
    conversation, and the database does not fail between the first write and the third of a creation. */
  ghost predicate Careful(s: Store, op: Op) {
    match op
    case Create(id, _, writes) => Fresh(s, id) && (writes == 0 || writes >= 3)
    case Add(g, ids, _, _) => g in s.groups ==> Distinct(ids)
    case Remove(g, m, _, _) => g in s.conversations ==> Has(s.members, g, m)
    case _ => true
  }

  ghost predicate CarefulRun(ops: seq<Op>) {
    forall i :: 0 <= i < |ops| ==> Careful(Run(ops[..i]), ops[i])
  }

  lemma CarefulPrefix(ops: seq<Op>)
    requires CarefulRun(ops) && ops != []
    ensures CarefulRun(ops[..|ops| - 1])
    ensures Careful(Run(ops[..|ops| - 1]), ops[|ops| - 1])
  {
    var front := ops[..|ops| - 1];
    forall i | 0 <= i < |front| ensures Careful(Run(front[..i]), front[i]) {
      assert front[..i] == ops[..i];
    }
  }

  lemma StepAgreesExactly(s: Store, op: Op)
    requires Agreement(s) && (op.Create? ==> Fresh(s, op.id))
    ensures Agreement(Step(s, op)) <==> Careful(s, op)
  {
    match op
    case Create(id, actor, writes) => CreatedAgreesExactly(s, id, actor, writes);
    case Add(g, ids, memberType, actor) =>
      if g in s.groups {
        AddedAgreesExactly(s, g, ids, memberType, actor);
      }
    case Remove(g, m, actor, at) => RemovedAgreesExactly(s, g, m, actor, at);
    case Delete(g, actor, at) =>
      forall h: string ensures Agrees(Deleted(s, g, actor, at), h) {
        assert Agrees(s, h);
      }
    case UpdateAdmin(g, m, memberType) => AdminSetAgrees(s, g, m, memberType);
  }

  /** Over every careful run, each group's receivers are its members, each once. */
  lemma {:induction false} ReceiversAgree(ops: seq<Op>)
    requires CarefulRun(ops)
    ensures Agreement(Run(ops))
    decreases |ops|
  {
    hide Step, Agreement, CarefulRun;
    if ops != [] {
      CarefulPrefix(ops);
      ReceiversAgree(ops[..|ops| - 1]);
      StepAgreesExactly(Run(ops[..|ops| - 1]), ops[|ops| - 1]);
    } else {
      NothingAgrees();
    }
  }

  /** They agree after each step of a run exactly when every step is careful. */
  lemma AgreementExactly(ops: seq<Op>)
    requires FreshIds(ops)
    ensures (forall k :: 0 <= k <= |ops| ==> Agreement(Run(ops[..k]))) <==> CarefulRun(ops)
  {
    hide Step, Agreement, Careful;
    if CarefulRun(ops) {
      forall k | 0 <= k <= |ops| ensures Agreement(Run(ops[..k])) {
        forall i | 0 <= i < k ensures ops[..k][..i] == ops[..i] {
        }
        ReceiversAgree(ops[..k]);
      }
    } else if forall k :: 0 <= k <= |ops| ==> Agreement(Run(ops[..k])) {
      forall i | 0 <= i < |ops| ensures Careful(Run(ops[..i]), ops[i]) {
        assert ops[..i + 1][..i] == ops[..i];
        assert Run(ops[..i + 1]) == Step(Run(ops[..i]), ops[i]);
        StepAgreesExactly(Run(ops[..i]), ops[i]);
      }
    }
  }

  lemma NothingAgrees()
    ensures Agreement(EMPTY)
  {
  }

  // ---------- Deletion marks in the three copies ----------

  predicate HasAction(receivers: seq<Receiver>, m: nat) {
    exists j :: 0 <= j < |receivers| && receivers[j].userId == m && receivers[j].action.Some?
  }

  /** A member deleted in the database, or shown as deleted by the cached list, is a receiver with the record
    of its removal. */
  ghost predicate DeletionsMarked(s: Store, g: string) {
    && (g in s.conversations ==>
          forall m: nat :: DeletedIn(s.members, g, m) ==> HasAction(s.conversations[g].receivers, m))
    && (g in s.cache ==>
          && g in s.conversations
          && forall m: nat :: DeletedInCache(s.cache[g], m) ==> HasAction(s.conversations[g].receivers, m))
  }

  ghost predicate AllDeletionsMarked(s: Store) {
    forall g: string :: DeletionsMarked(s, g)
  }

  lemma SnapshotDeleted(docs: seq<MemberDoc>, g: string, m: nat)
    requires DeletedInCache(Snapshot(Find(docs, g)), m)
    ensures DeletedIn(docs, g, m)
  {
    var found := Find(docs, g);
    var i :| 0 <= i < |found| && Snapshot(found)[i].userId == m && Snapshot(found)[i].isDeleted.Some?;
    FindOnly(docs, g);
    assert Is(found[i], g, m);
    FindDeleted(docs, g, m);
  }

  lemma JoinedDeleted(docs: seq<MemberDoc>, g: string, ids: seq<nat>, memberType: int, actor: nat, h: string, x: nat)
    requires DeletedIn(Joined(docs, g, ids, memberType, actor), h, x)
    ensures x !in ids && DeletedIn(docs, h, x)
  {
    var enrolled := Enrolled(docs, g, ids, memberType, actor);
    var after := Revived(enrolled, ids);
    EnrolledShape(docs, g, ids, memberType, actor);
    var i :| 0 <= i < |after| && Is(after[i], h, x) && after[i].isDeleted.Some?;
    assert enrolled[i].memberId !in ids && i < |docs|;
    assert Is(docs[i], h, x) && docs[i].isDeleted.Some?;
  }

  lemma ActionsSurviveAdding(receivers: seq<Receiver>, ids: seq<nat>, m: nat)
    requires Distinct(Ids(receivers)) && m !in ids && HasAction(receivers, m)
    ensures HasAction(WithAdded(receivers, ids), m)
  {
    var j :| 0 <= j < |receivers| && receivers[j].userId == m && receivers[j].action.Some?;
    ReaddedLoseTheirAction(receivers, ids, j);
    assert WithAdded(receivers, ids)[j] == receivers[j];
  }

  lemma ActionsSurviveRemoving(receivers: seq<Receiver>, x: nat, action: Action, m: nat)
    requires HasAction(receivers, m) || (x == m && m in Ids(receivers))
    ensures HasAction(Marked(receivers, x, action), m)
  {
    var j :| 0 <= j < |receivers| && receivers[j].userId == m && (receivers[j].action.Some? || x == m);
    assert Marked(receivers, x, action)[j].userId == m && Marked(receivers, x, action)[j].action.Some?;
  }

  lemma AddedMarks(s: Store, g: string, ids: seq<nat>, memberType: int, actor: nat)
    requires Agreement(s) && AllDeletionsMarked(s) && g in s.groups
    ensures AllDeletionsMarked(Added(s, g, ids, memberType, actor))
  {
    var after := Added(s, g, ids, memberType, actor);
    forall h: string ensures DeletionsMarked(after, h) {
      assert DeletionsMarked(s, h) && Agrees(s, h);
      if h in after.conversations {
        forall m: nat | DeletedIn(after.members, h, m) ensures HasAction(after.conversations[h].receivers, m) {
          JoinedDeleted(s.members, g, ids, memberType, actor, h, m);
          if h == g {
            ActionsSurviveAdding(s.conversations[g].receivers, ids, m);
          }
        }
      }
      if h == g {
        forall m: nat | DeletedInCache(after.cache[g], m) ensures DeletedIn(after.members, g, m) {
          SnapshotDeleted(after.members, g, m);
        }
      }
    }
  }

  lemma RemovedMarks(s: Store, g: string, m: nat, actor: nat, at: int)
    requires Agreement(s) && AllDeletionsMarked(s) && UniqueMembers(s.members)
    requires g in s.conversations ==> Has(s.members, g, m)
    ensures AllDeletionsMarked(Removed(s, g, m, actor, at))
  {
    var after := Removed(s, g, m, actor, at);
    forall h: string ensures DeletionsMarked(after, h) {
      assert DeletionsMarked(s, h) && Agrees(s, h);
      if h in after.conversations {
        forall x: nat | DeletedIn(after.members, h, x) ensures HasAction(after.conversations[h].receivers, x) {
          RemovedDeleted(s, g, m, actor, at, h, x);
          if h == g {
            ActionsSurviveRemoving(s.conversations[g].receivers, m, LeaveAction(m, actor, at), x);
          }
        }
        if h == g {
          forall x: nat | DeletedInCache(after.cache[g], x) ensures DeletedIn(after.members, g, x) {
            SnapshotDeleted(after.members, g, x);
          }
        }
      }
    }
  }

  lemma CreatedMarks(s: Store, id: string, actor: nat, writes: nat)
    requires AllDeletionsMarked(s) && Fresh(s, id)
    ensures AllDeletionsMarked(Created(s, id, actor, writes))
  {
    var after := Created(s, id, actor, writes);
    var admin := MemberDoc(id, actor, Some(ADMIN), Some(actor), Some(actor), None);
    assert after.members == if writes >= 2 then s.members + [admin] else s.members;
    forall h: string ensures DeletionsMarked(after, h) {
      assert DeletionsMarked(s, h);
      forall m: nat | DeletedIn(after.members, h, m) ensures DeletedIn(s.members, h, m) && h != id {
        var i :| 0 <= i < |after.members| && Is(after.members[i], h, m) && after.members[i].isDeleted.Some?;
        assert Is(s.members[i], h, m);
      }
      if h == id && writes >= 4 {
        forall m: nat | DeletedInCache(after.cache[id], m) ensures DeletedIn(after.members, id, m) {
          SnapshotDeleted(after.members, id, m);
        }
      }
    }
  }

  lemma AdminSetMarks(s: Store, g: string, m: nat, memberType: int)
    requires AllDeletionsMarked(s)
    ensures AllDeletionsMarked(AdminSet(s, g, m, memberType))
  {
    var after := AdminSet(s, g, m, memberType);
    SetTypeShape(s.members, g, m, memberType);
    forall h: string ensures DeletionsMarked(after, h) {
      assert DeletionsMarked(s, h);
      forall x: nat | DeletedIn(after.members, h, x) ensures DeletedIn(s.members, h, x) {
        var i :| 0 <= i < |after.members| && Is(after.members[i], h, x) && after.members[i].isDeleted.Some?;
        assert Is(s.members[i], h, x);
      }
    }
  }

  lemma StepMarks(s: Store, op: Op)
    requires Agreement(s) && UniqueMembers(s.members) && AllDeletionsMarked(s) && Careful(s, op)
    ensures AllDeletionsMarked(Step(s, op))
  {
    hide Agreement, Added, Removed, Created, AdminSet;
    match op
    case Create(id, actor, writes) => CreatedMarks(s, id, actor, writes);
    case Add(g, ids, memberType, actor) =>
      if g in s.groups {
        AddedMarks(s, g, ids, memberType, actor);
      } else {
        AddedToNothing(s, g, ids, memberType, actor);
      }
    case Remove(g, m, actor, at) => RemovedMarks(s, g, m, actor, at);
    case Delete(g, actor, at) => DeletedMarks(s, g, actor, at);
    case UpdateAdmin(g, m, memberType) => AdminSetMarks(s, g, m, memberType);
  }

  lemma AddedToNothing(s: Store, g: string, ids: seq<nat>, memberType: int, actor: nat)
    requires g !in s.groups
    ensures Added(s, g, ids, memberType, actor) == s
  {
  }

  lemma DeletedMarks(s: Store, g: string, actor: nat, at: int)
    requires Agreement(s) && AllDeletionsMarked(s)
    ensures AllDeletionsMarked(Deleted(s, g, actor, at))
  {
    forall h: string ensures DeletionsMarked(Deleted(s, g, actor, at), h) {
      assert DeletionsMarked(s, h);
    }
  }

  /** Over every careful run, whoever is deleted in the database or in the cached list is marked among the
    receivers. */
  lemma {:induction false} DeletionsAgree(ops: seq<Op>)
    requires CarefulRun(ops)
    ensures AllDeletionsMarked(Run(ops))
    decreases |ops|
  {
    hide Step, Agreement, Careful, CarefulRun, AllDeletionsMarked;
    if ops != [] {
      var front := ops[..|ops| - 1];
      CarefulPrefix(ops);
      DeletionsAgree(front);
      ReceiversAgree(front);
      CarefulIsFresh(front);
      RunKeeps(front);
      StepMarks(Run(front), ops[|ops| - 1]);
    } else {
      NothingMarked();
    }
  }

  lemma CarefulIsFresh(ops: seq<Op>)
    requires CarefulRun(ops)
    ensures FreshIds(ops)
  {
    forall i | 0 <= i < |ops| && ops[i].Create? ensures Fresh(Run(ops[..i]), ops[i].id) {
      assert Careful(Run(ops[..i]), ops[i]);
    }
  }

  lemma NothingMarked()
    ensures AllDeletionsMarked(EMPTY)
  {
  }

  /** The three copies err on the same side: a member deleted in the database is deleted in the cached list, and
    a member deleted in the cached list is marked among the receivers. */
  lemma DeletionChain(ops: seq<Op>, g: string, m: nat)
    requires CarefulRun(ops) && g in Run(ops).cache
    ensures g in Run(ops).conversations
    ensures DeletedIn(Run(ops).members, g, m) ==> DeletedInCache(Run(ops).cache[g], m)
    ensures DeletedInCache(Run(ops).cache[g], m) ==> HasAction(Run(ops).conversations[g].receivers, m)
  {
    var s := Run(ops);
    DeletionsAgree(ops);
    CarefulIsFresh(ops);
    RunKeeps(ops);
    assert DeletionsMarked(s, g);
    if DeletedIn(s.members, g, m) {
      var found := Find(s.members, g);
      FindDeleted(s.members, g, m);
      var i :| 0 <= i < |found| && Is(found[i], g, m) && found[i].isDeleted.Some?;
      assert s.cache[g][i].userId == m && s.cache[g][i].isDeleted.Some?;
    }
  }
}
