/** What every run of the group operations keeps: the cached member lists never show a removed member as active. */
module GroupInvariants {
  import opened Wrappers
  import opened GroupStore

  // ---------- The member collection ----------

  /** No two documents for the same member of the same group. */
  ghost predicate UniqueMembers(docs: seq<MemberDoc>) {
    forall i, j :: 0 <= i < j < |docs| ==> !Is(docs[j], docs[i].groupId, docs[i].memberId)
  }

  predicate Has(docs: seq<MemberDoc>, groupId: string, memberId: nat) {
    exists i :: 0 <= i < |docs| && Is(docs[i], groupId, memberId)
  }

  lemma {:induction false} UpsertedShape(docs: seq<MemberDoc>, g: string, m: nat, change: Change)
    ensures var after := Upserted(docs, g, m, change);
            && |docs| <= |after|
            && (Has(docs, g, m) ==> |after| == |docs|)
            && (!Has(docs, g, m) ==> after == docs + [Apply(Blank(g, m), change)])
            && forall i :: 0 <= i < |docs| ==>
                 && after[i].groupId == docs[i].groupId && after[i].memberId == docs[i].memberId
                 && (!Is(docs[i], g, m) ==> after[i] == docs[i])
    decreases |docs|
  {
    if docs != [] && !Is(docs[0], g, m) {
      UpsertedShape(docs[1..], g, m, change);
      assert docs == [docs[0]] + docs[1..];
      assert Has(docs, g, m) <==> Has(docs[1..], g, m) by {
        assert forall i :: 0 <= i < |docs| - 1 ==> docs[1..][i] == docs[i + 1];
      }
    }
  }

  lemma UpsertedUnique(docs: seq<MemberDoc>, g: string, m: nat, change: Change)
    requires UniqueMembers(docs)
    ensures UniqueMembers(Upserted(docs, g, m, change))
  {
    UpsertedShape(docs, g, m, change);
  }

  lemma {:induction false} EnrolledUnique(docs: seq<MemberDoc>, g: string, ids: seq<nat>, memberType: int, actor: nat)
    requires UniqueMembers(docs)
    ensures UniqueMembers(Enrolled(docs, g, ids, memberType, actor))
    decreases |ids|
  {
    if ids != [] {
      EnrolledUnique(docs, g, ids[..|ids| - 1], memberType, actor);
      UpsertedUnique(Enrolled(docs, g, ids[..|ids| - 1], memberType, actor), g, ids[|ids| - 1],
                     Enrol(memberType, actor));
    }
  }

  lemma {:induction false} SetTypeShape(docs: seq<MemberDoc>, g: string, m: nat, memberType: int)
    ensures var after := SetType(docs, g, m, memberType);
            && |after| == |docs|
            && forall i :: 0 <= i < |docs| ==>
                 && after[i].groupId == docs[i].groupId && after[i].memberId == docs[i].memberId
                 && after[i].isDeleted == docs[i].isDeleted
    decreases |docs|
  {
    if docs != [] && !Is(docs[0], g, m) {
      SetTypeShape(docs[1..], g, m, memberType);
    }
  }

  // ---------- Finding a group's members ----------

  lemma {:induction false} FindUpsertedElsewhere(docs: seq<MemberDoc>, g: string, m: nat, change: Change, h: string)
    requires g != h
    ensures Find(Upserted(docs, g, m, change), h) == Find(docs, h)
    decreases |docs|
  {
    if docs != [] && !Is(docs[0], g, m) {
      FindUpsertedElsewhere(docs[1..], g, m, change, h);
    }
  }

  lemma {:induction false} FindEnrolledElsewhere(
      docs: seq<MemberDoc>, g: string, ids: seq<nat>, memberType: int, actor: nat, h: string)
    requires g != h
    ensures Find(Enrolled(docs, g, ids, memberType, actor), h) == Find(docs, h)
    decreases |ids|
  {
    if ids != [] {
      var front := ids[..|ids| - 1];
      FindEnrolledElsewhere(docs, g, front, memberType, actor, h);
      FindUpsertedElsewhere(Enrolled(docs, g, front, memberType, actor), g, ids[|ids| - 1],
                            Enrol(memberType, actor), h);
    }
  }

  lemma {:induction false} FindRevived(docs: seq<MemberDoc>, ids: seq<nat>, h: string)
    ensures Find(Revived(docs, ids), h) == Revived(Find(docs, h), ids)
    decreases |docs|
  {
    if docs != [] {
      FindRevived(docs[1..], ids, h);
      assert Revived(docs, ids)[1..] == Revived(docs[1..], ids);
      assert Revived([docs[0]] + Find(docs[1..], h), ids)
          == Revived([docs[0]], ids) + Revived(Find(docs[1..], h), ids);
    }
  }

  /** The members of another group, after members are added to `g`. */
  lemma FindJoinedElsewhere(docs: seq<MemberDoc>, g: string, ids: seq<nat>, memberType: int, actor: nat, h: string)
    requires g != h
    ensures Find(Joined(docs, g, ids, memberType, actor), h) == Revived(Find(docs, h), ids)
  {
    FindRevived(Enrolled(docs, g, ids, memberType, actor), ids, h);
    FindEnrolledElsewhere(docs, g, ids, memberType, actor, h);
  }

  lemma {:induction false} FindSetType(docs: seq<MemberDoc>, g: string, m: nat, memberType: int, h: string)
    ensures Snapshot(Find(SetType(docs, g, m, memberType), h)) == Snapshot(Find(docs, h))
    decreases |docs|
  {
    if docs != [] {
      if !Is(docs[0], g, m) {
        FindSetType(docs[1..], g, m, memberType, h);
      }
      SnapshotCons(docs[0], Find(docs[1..], h));
      var after := SetType(docs, g, m, memberType);
      SnapshotCons(after[0], Find(after[1..], h));
    }
  }

  lemma SnapshotCons(doc: MemberDoc, docs: seq<MemberDoc>)
    ensures Snapshot([doc] + docs) == [CacheEntry(doc.memberId, doc.isDeleted)] + Snapshot(docs)
    ensures Snapshot([] + docs) == Snapshot(docs)
  {
  }

  lemma {:induction false} FindNothing(docs: seq<MemberDoc>, g: string)
    requires forall i :: 0 <= i < |docs| ==> docs[i].groupId != g
    ensures Find(docs, g) == []
    decreases |docs|
  {
    if docs != [] {
      FindNothing(docs[1..], g);
    }
  }

  lemma {:induction false} FindConcat(a: seq<MemberDoc>, b: seq<MemberDoc>, g: string)
    ensures Find(a + b, g) == Find(a, g) + Find(b, g)
    decreases |a|
  {
    if a == [] {
      assert a + b == b;
    } else {
      FindConcat(a[1..], b, g);
      assert (a + b)[1..] == a[1..] + b;
    }
  }

  /** What is found are the group's documents, and nothing else. */
  lemma {:induction false} FindActive(docs: seq<MemberDoc>, g: string, m: nat)
    ensures ActiveIn(Find(docs, g), g, m) <==> ActiveIn(docs, g, m)
    ensures ActiveInCache(Snapshot(Find(docs, g)), m) <==> ActiveIn(docs, g, m)
    decreases |docs|
  {
    if docs != [] {
      var rest := Find(docs[1..], g);
      FindActive(docs[1..], g, m);
      SnapshotCons(docs[0], rest);
      ActiveCons(docs[0], docs[1..], g, m);
      assert docs == [docs[0]] + docs[1..];
      ActiveCons(docs[0], rest, g, m);
      ActiveEntryCons(CacheEntry(docs[0].memberId, docs[0].isDeleted), Snapshot(rest), m);
    }
  }

  lemma ActiveCons(doc: MemberDoc, docs: seq<MemberDoc>, g: string, m: nat)
    ensures ActiveIn([doc] + docs, g, m) <==> (Is(doc, g, m) && doc.isDeleted.None?) || ActiveIn(docs, g, m)
    ensures ActiveIn([] + docs, g, m) <==> ActiveIn(docs, g, m)
  {
    var all := [doc] + docs;
    assert forall i :: 0 <= i < |docs| ==> all[i + 1] == docs[i];
    if Is(doc, g, m) && doc.isDeleted.None? {
      assert Is(all[0], g, m);
    }
    if ActiveIn(docs, g, m) {
      var i :| 0 <= i < |docs| && Is(docs[i], g, m) && docs[i].isDeleted.None?;
      assert Is(all[i + 1], g, m);
    }
    assert [] + docs == docs;
  }

  lemma ActiveSnoc(docs: seq<MemberDoc>, doc: MemberDoc, g: string, m: nat)
    ensures ActiveIn(docs + [doc], g, m) <==> ActiveIn(docs, g, m) || (Is(doc, g, m) && doc.isDeleted.None?)
  {
    var all := docs + [doc];
    assert forall i :: 0 <= i < |docs| ==> all[i] == docs[i];
    if ActiveIn(docs, g, m) {
      var i :| 0 <= i < |docs| && Is(docs[i], g, m) && docs[i].isDeleted.None?;
      assert Is(all[i], g, m);
    }
    if Is(doc, g, m) && doc.isDeleted.None? {
      assert Is(all[|docs|], g, m);
    }
  }

  lemma ActiveEntryCons(entry: CacheEntry, entries: seq<CacheEntry>, m: nat)
    ensures ActiveInCache([entry] + entries, m)
       <==> (entry.userId == m && entry.isDeleted.None?) || ActiveInCache(entries, m)
  {
    var all := [entry] + entries;
    assert forall i :: 0 <= i < |entries| ==> all[i + 1] == entries[i];
    if entry.userId == m && entry.isDeleted.None? {
      assert all[0].userId == m;
    }
    if ActiveInCache(entries, m) {
      var i :| 0 <= i < |entries| && entries[i].userId == m && entries[i].isDeleted.None?;
      assert all[i + 1].userId == m;
    }
  }

  // ---------- The cache lags behind the database in one direction only ----------

  /** Entry by entry the same members, with the same deletion mark unless the database has dropped it since. */
  predicate Lags(entries: seq<CacheEntry>, docs: seq<MemberDoc>) {
    && |entries| == |docs|
    && forall i :: 0 <= i < |docs| ==>
         && entries[i].userId == docs[i].memberId
         && (docs[i].isDeleted.Some? ==> entries[i].isDeleted == docs[i].isDeleted)
  }

  ghost predicate CacheLags(s: Store) {
    forall g :: g in s.cache ==> Lags(s.cache[g], Find(s.members, g))
  }

  /** A cached group has a conversation; this keeps every removal from it synchronised. */
  ghost predicate CachedHaveConversations(s: Store) {
    forall g :: g in s.cache ==> g in s.conversations
  }

  ghost predicate Invariant(s: Store) {
    UniqueMembers(s.members) && CachedHaveConversations(s) && CacheLags(s)
  }

  lemma LagsRevived(entries: seq<CacheEntry>, docs: seq<MemberDoc>, ids: seq<nat>)
    requires Lags(entries, docs)
    ensures Lags(entries, Revived(docs, ids))
  {
  }

  lemma CreatedKeeps(s: Store, id: string, actor: nat, writes: nat)
    requires Invariant(s) && Fresh(s, id)
    ensures Invariant(Created(s, id, actor, writes))
  {
    var after := Created(s, id, actor, writes);
    var admin := MemberDoc(id, actor, Some(ADMIN), Some(actor), Some(actor), None);
    assert after.members == if writes >= 2 then s.members + [admin] else s.members;
    forall g | g in after.cache && g != id ensures Lags(after.cache[g], Find(after.members, g)) {
      FindConcat(s.members, [admin], g);
      assert Find([admin], g) == [];
      assert Find(s.members, g) + [] == Find(s.members, g);
    }
  }

  lemma AddedKeeps(s: Store, g: string, ids: seq<nat>, memberType: int, actor: nat)
    requires Invariant(s)
    ensures Invariant(Added(s, g, ids, memberType, actor))
  {
    var after := Added(s, g, ids, memberType, actor);
    if g in s.groups {
      EnrolledUnique(s.members, g, ids, memberType, actor);
      assert UniqueMembers(after.members);
      forall h | h in after.cache && h != g ensures Lags(after.cache[h], Find(after.members, h)) {
        FindJoinedElsewhere(s.members, g, ids, memberType, actor, h);
        LagsRevived(s.cache[h], Find(s.members, h), ids);
      }
    }
  }

  lemma RemovedKeeps(s: Store, g: string, m: nat, actor: nat, at: int)
    requires Invariant(s)
    ensures Invariant(Removed(s, g, m, actor, at))
  {
    var after := Removed(s, g, m, actor, at);
    UpsertedUnique(s.members, g, m, Strike(at));
    forall h | h in after.cache && h != g ensures Lags(after.cache[h], Find(after.members, h)) {
      FindUpsertedElsewhere(s.members, g, m, Strike(at), h);
    }
  }

  lemma AdminSetKeeps(s: Store, g: string, m: nat, memberType: int)
    requires Invariant(s)
    ensures Invariant(AdminSet(s, g, m, memberType))
  {
    var after := AdminSet(s, g, m, memberType);
    SetTypeShape(s.members, g, m, memberType);
    forall h | h in after.cache ensures Lags(after.cache[h], Find(after.members, h)) {
      FindSetType(s.members, g, m, memberType, h);
      SameSnapshotLags(s.cache[h], Find(s.members, h), Find(after.members, h));
    }
  }

  lemma SameSnapshotLags(entries: seq<CacheEntry>, docs: seq<MemberDoc>, docs': seq<MemberDoc>)
    requires Lags(entries, docs) && Snapshot(docs') == Snapshot(docs)
    ensures Lags(entries, docs')
  {
    assert |docs'| == |docs|;
    forall i | 0 <= i < |docs|
      ensures docs'[i].memberId == docs[i].memberId && docs'[i].isDeleted == docs[i].isDeleted
    {
      assert Snapshot(docs')[i] == Snapshot(docs)[i];
    }
  }

  lemma StepKeeps(s: Store, op: Op)
    requires Invariant(s) && (op.Create? ==> Fresh(s, op.id))
    ensures Invariant(Step(s, op))
  {
    hide Created, Added, Removed, AdminSet;
    match op
    case Create(id, actor, writes) => CreatedKeeps(s, id, actor, writes);
    case Add(g, ids, memberType, actor) => AddedKeeps(s, g, ids, memberType, actor);
    case Remove(g, m, actor, at) => RemovedKeeps(s, g, m, actor, at);
    case Delete(g, actor, at) =>
    case UpdateAdmin(g, m, memberType) => AdminSetKeeps(s, g, m, memberType);
  }

  lemma {:induction false} RunKeeps(ops: seq<Op>)
    requires FreshIds(ops)
    ensures Invariant(Run(ops))
    decreases |ops|
  {
    if ops != [] {
      var front := ops[..|ops| - 1];
      assert FreshIds(front) by {
        forall i | 0 <= i < |front| && front[i].Create? ensures Fresh(Run(front[..i]), front[i].id) {
          assert front[..i] == ops[..i];
        }
      }
      RunKeeps(front);
      StepKeeps(Run(front), ops[|ops| - 1]);
    }
  }

  lemma InvariantActive(s: Store, g: string, m: nat)
    requires Invariant(s) && CachedActive(s, g, m)
    ensures Active(s, g, m)
  {
    LagsActive(s.cache[g], Find(s.members, g), g, m);
    FindActive(s.members, g, m);
  }

  /** In every reachable state, a member the cache shows as active in a group is active there in the database. */
  lemma CachedActiveAreActive(ops: seq<Op>, g: string, m: nat)
    requires FreshIds(ops) && CachedActive(Run(ops), g, m)
    ensures Active(Run(ops), g, m)
  {
    RunKeeps(ops);
    InvariantActive(Run(ops), g, m);
  }

  lemma LagsActive(entries: seq<CacheEntry>, docs: seq<MemberDoc>, g: string, m: nat)
    requires Lags(entries, docs) && ActiveInCache(entries, m)
    ensures ActiveInCache(Snapshot(docs), m)
  {
    var i :| 0 <= i < |entries| && entries[i].userId == m && entries[i].isDeleted.None?;
    assert Snapshot(docs)[i] == CacheEntry(docs[i].memberId, docs[i].isDeleted);
  }
}
