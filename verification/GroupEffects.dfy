/** What adding and removing members does to who is active, and to how far each cached list can be trusted. */
module GroupEffects {
  import opened Wrappers
  import opened GroupStore
  import opened GroupInvariants

  predicate DeletedIn(docs: seq<MemberDoc>, g: string, m: nat) {
    exists i :: 0 <= i < |docs| && Is(docs[i], g, m) && docs[i].isDeleted.Some?
  }

  /** The cached list shows the member as deleted. */
  predicate DeletedInCache(entries: seq<CacheEntry>, m: nat) {
    exists i :: 0 <= i < |entries| && entries[i].userId == m && entries[i].isDeleted.Some?
  }

  // ---------- Removing ----------

  lemma {:induction false} UpsertedAt(docs: seq<MemberDoc>, g: string, m: nat, change: Change, i: nat)
    requires UniqueMembers(docs) && i < |docs| && Is(docs[i], g, m)
    ensures |Upserted(docs, g, m, change)| == |docs|
    ensures Upserted(docs, g, m, change)[i] == Apply(docs[i], change)
    decreases |docs|
  {
    UpsertedShape(docs, g, m, change);
    if i > 0 {
      assert docs[1..][i - 1] == docs[i];
      assert !Is(docs[i], docs[0].groupId, docs[0].memberId);
      UpsertedAt(docs[1..], g, m, change, i - 1);
    }
  }

  lemma StruckActive(docs: seq<MemberDoc>, g: string, m: nat, at: int, h: string, x: nat)
    requires UniqueMembers(docs)
    ensures ActiveIn(Upserted(docs, g, m, Strike(at)), h, x) <==> ActiveIn(docs, h, x) && !(h == g && x == m)
  {
    hide Upserted, Blank;
    var after := Upserted(docs, g, m, Strike(at));
    UpsertedShape(docs, g, m, Strike(at));
    forall i | 0 <= i < |docs|
      ensures after[i].isDeleted == if Is(docs[i], g, m) then Some(at) else docs[i].isDeleted
    {
      if Is(docs[i], g, m) {
        UpsertedAt(docs, g, m, Strike(at), i);
      }
    }
    if ActiveIn(docs, h, x) && !(h == g && x == m) {
      var i :| 0 <= i < |docs| && Is(docs[i], h, x) && docs[i].isDeleted.None?;
      assert Is(after[i], h, x);
    }
    if i :| 0 <= i < |after| && Is(after[i], h, x) && after[i].isDeleted.None? {
      assert i < |docs| && Is(docs[i], h, x);
    }
  }

  /** Removing takes exactly one member out of exactly one group. */
  lemma RemovedActive(s: Store, g: string, m: nat, actor: nat, at: int, h: string, x: nat)
    requires UniqueMembers(s.members)
    ensures Active(Removed(s, g, m, actor, at), h, x) <==> Active(s, h, x) && !(h == g && x == m)
  {
    StruckActive(s.members, g, m, at, h, x);
    assert Removed(s, g, m, actor, at).members == Upserted(s.members, g, m, Strike(at));
  }

  // ---------- Adding ----------

  lemma {:induction false} EnrolledShape(docs: seq<MemberDoc>, g: string, ids: seq<nat>, memberType: int, actor: nat)
    ensures var after := Enrolled(docs, g, ids, memberType, actor);
            && |docs| <= |after|
            && (forall i :: 0 <= i < |docs| ==>
                 && after[i].groupId == docs[i].groupId && after[i].memberId == docs[i].memberId
                 && after[i].isDeleted == docs[i].isDeleted)
            && (forall i :: |docs| <= i < |after| ==> after[i].groupId == g && after[i].memberId in ids)
    decreases |ids|
  {
    if ids != [] {
      var front, last := ids[..|ids| - 1], ids[|ids| - 1];
      var before := Enrolled(docs, g, front, memberType, actor);
      EnrolledShape(docs, g, front, memberType, actor);
      UpsertedShape(before, g, last, Enrol(memberType, actor));
      UpsertedKeepsMarks(before, g, last, memberType, actor);
    }
  }

  lemma {:induction false} UpsertedKeepsMarks(docs: seq<MemberDoc>, g: string, m: nat, memberType: int, actor: nat)
    ensures var after := Upserted(docs, g, m, Enrol(memberType, actor));
            |docs| <= |after| && forall i :: 0 <= i < |docs| ==> after[i].isDeleted == docs[i].isDeleted
    decreases |docs|
  {
    if docs != [] && !Is(docs[0], g, m) {
      UpsertedKeepsMarks(docs[1..], g, m, memberType, actor);
    }
  }

  lemma {:induction false} EnrolledHas(
      docs: seq<MemberDoc>, g: string, ids: seq<nat>, memberType: int, actor: nat, h: string, x: nat)
    ensures Has(Enrolled(docs, g, ids, memberType, actor), h, x) <==> Has(docs, h, x) || (h == g && x in ids)
    decreases |ids|
  {
    if ids != [] {
      var front, last := ids[..|ids| - 1], ids[|ids| - 1];
      assert ids == front + [last];
      EnrolledHas(docs, g, front, memberType, actor, h, x);
      UpsertedHas(Enrolled(docs, g, front, memberType, actor), g, last, Enrol(memberType, actor), h, x);
    }
  }

  lemma UpsertedHas(docs: seq<MemberDoc>, g: string, m: nat, change: Change, h: string, x: nat)
    ensures Has(Upserted(docs, g, m, change), h, x) <==> Has(docs, h, x) || (h == g && x == m)
  {
    var after := Upserted(docs, g, m, change);
    UpsertedShape(docs, g, m, change);
    if Has(docs, h, x) {
      var i :| 0 <= i < |docs| && Is(docs[i], h, x);
      assert Is(after[i], h, x);
    } else if h == g && x == m {
      assert Is(after[|docs|], h, x);
    } else if Has(after, h, x) {
      var i :| 0 <= i < |after| && Is(after[i], h, x);
      assert i < |docs| ==> Is(docs[i], h, x);
    }
  }

  lemma RevivedHas(docs: seq<MemberDoc>, ids: seq<nat>, h: string, x: nat)
    ensures Has(Revived(docs, ids), h, x) <==> Has(docs, h, x)
    ensures ActiveIn(Revived(docs, ids), h, x) <==> ActiveIn(docs, h, x) || (x in ids && Has(docs, h, x))
  {
    var after := Revived(docs, ids);
    assert forall i :: 0 <= i < |docs| ==>
      after[i].groupId == docs[i].groupId && after[i].memberId == docs[i].memberId;
    forall i | 0 <= i < |docs| && Is(docs[i], h, x)
      ensures Is(after[i], h, x)
      ensures after[i].isDeleted.None? <==> docs[i].isDeleted.None? || x in ids
    {
    }
    forall i | 0 <= i < |after| && Is(after[i], h, x) ensures Is(docs[i], h, x) {
    }
  }

  lemma EnrolledActive(docs: seq<MemberDoc>, g: string, ids: seq<nat>, memberType: int, actor: nat, h: string, x: nat)
    requires x !in ids || h != g
    ensures ActiveIn(Enrolled(docs, g, ids, memberType, actor), h, x) <==> ActiveIn(docs, h, x)
  {
    var after := Enrolled(docs, g, ids, memberType, actor);
    EnrolledShape(docs, g, ids, memberType, actor);
    if ActiveIn(docs, h, x) {
      var i :| 0 <= i < |docs| && Is(docs[i], h, x) && docs[i].isDeleted.None?;
      assert Is(after[i], h, x) && after[i].isDeleted.None?;
    }
    if ActiveIn(after, h, x) {
      var i :| 0 <= i < |after| && Is(after[i], h, x) && after[i].isDeleted.None?;
      assert i < |docs|;
      assert Is(docs[i], h, x) && docs[i].isDeleted.None?;
    }
  }

  /** Adding makes the given members active in the group, and active again in every other group that has ever
    had them; nobody else's standing changes. */
  lemma AddedActive(s: Store, g: string, ids: seq<nat>, memberType: int, actor: nat, h: string, x: nat)
    requires g in s.groups
    ensures Active(Added(s, g, ids, memberType, actor), h, x)
       <==> Active(s, h, x) || (x in ids && (h == g || Has(s.members, h, x)))
  {
    var enrolled := Enrolled(s.members, g, ids, memberType, actor);
    assert Added(s, g, ids, memberType, actor).members == Revived(enrolled, ids);
    RevivedHas(enrolled, ids, h, x);
    EnrolledHas(s.members, g, ids, memberType, actor, h, x);
    if x !in ids || h != g {
      EnrolledActive(s.members, g, ids, memberType, actor, h, x);
    }
  }

  /** The role and author recorded for a member, once added. */
  predicate Enrols(doc: MemberDoc, memberType: int, actor: nat) {
    doc.memberType == Some(memberType) && doc.createdBy == Some(actor) && doc.modifiedBy == Some(actor)
  }

  lemma {:induction false} EnrolledRoles(
      docs: seq<MemberDoc>, g: string, ids: seq<nat>, memberType: int, actor: nat, i: nat)
    requires UniqueMembers(docs) && i < |Enrolled(docs, g, ids, memberType, actor)|
    ensures var after := Enrolled(docs, g, ids, memberType, actor);
            && (after[i].groupId == g && after[i].memberId in ids ==> Enrols(after[i], memberType, actor))
            && (!(after[i].groupId == g && after[i].memberId in ids) ==> i < |docs| && after[i] == docs[i])
    decreases |ids|
  {
    if ids != [] {
      var front, last := ids[..|ids| - 1], ids[|ids| - 1];
      var before, change := Enrolled(docs, g, front, memberType, actor), Enrol(memberType, actor);
      assert ids == front + [last];
      EnrolledUnique(docs, g, front, memberType, actor);
      UpsertedShape(before, g, last, change);
      if i < |before| {
        EnrolledRoles(docs, g, front, memberType, actor, i);
        if Is(before[i], g, last) {
          UpsertedAt(before, g, last, change, i);
        }
      }
    }
  }

  /** Adding overwrites the role of every member added, an administrator's included, and no other. */
  lemma AddedRoles(s: Store, g: string, ids: seq<nat>, memberType: int, actor: nat, i: nat)
    requires UniqueMembers(s.members) && g in s.groups
    requires i < |Added(s, g, ids, memberType, actor).members|
    ensures var doc := Added(s, g, ids, memberType, actor).members[i];
            && (doc.groupId == g && doc.memberId in ids ==> Enrols(doc, memberType, actor))
            && (!(doc.groupId == g && doc.memberId in ids) ==>
                  i < |s.members| && doc.(isDeleted := s.members[i].isDeleted) == s.members[i])
  {
    EnrolledRoles(s.members, g, ids, memberType, actor, i);
  }

  /** A new group has its creator as its only member, as administrator, and a list in step. */
  lemma CreatedGroup(s: Store, id: string, actor: nat, h: string, x: nat)
    requires Fresh(s, id)
    ensures var after := Created(s, id, actor, 4);
            && InSync(after, id)
            && (Active(after, h, x) <==> Active(s, h, x) || (h == id && x == actor))
            && after.members[|after.members| - 1].memberType == Some(ADMIN)
  {
    var admin := MemberDoc(id, actor, Some(ADMIN), Some(actor), Some(actor), None);
    assert Created(s, id, actor, 4).members == s.members + [admin];
    ActiveSnoc(s.members, admin, h, x);
  }

  // ---------- Lists that match the database ----------

  predicate InSync(s: Store, g: string) {
    g in s.cache && s.cache[g] == Snapshot(Find(s.members, g))
  }

  /** A list in step with the database shows as active exactly the active members. */
  lemma InSyncActive(s: Store, g: string, m: nat)
    requires InSync(s, g)
    ensures CachedActive(s, g, m) <==> Active(s, g, m)
  {
    FindActive(s.members, g, m);
  }

  /** Adding to a group, or removing from it, leaves its own list in step. */
  lemma OwnListInSync(s: Store, g: string, ids: seq<nat>, memberType: int, actor: nat, m: nat, at: int)
    requires g in s.conversations
    ensures g in s.groups ==> InSync(Added(s, g, ids, memberType, actor), g)
    ensures InSync(Removed(s, g, m, actor, at), g)
  {
  }

  /** Adding to one group takes another group's list out of step exactly when it revives someone there. */
  lemma OtherListInSyncExactly(s: Store, g: string, ids: seq<nat>, memberType: int, actor: nat, h: string)
    requires g in s.groups && h != g && InSync(s, h)
    ensures InSync(Added(s, g, ids, memberType, actor), h) <==> forall m: nat | m in ids :: !DeletedIn(s.members, h, m)
  {
    var after := Added(s, g, ids, memberType, actor);
    var docs := Find(s.members, h);
    FindJoinedElsewhere(s.members, g, ids, memberType, actor, h);
    assert Find(after.members, h) == Revived(docs, ids);
    forall m: nat ensures DeletedIn(docs, h, m) <==> DeletedIn(s.members, h, m) {
      FindDeleted(s.members, h, m);
    }
    FindOnly(s.members, h);
    RevivedSnapshot(docs, ids, h);
  }

  lemma RevivedSnapshot(docs: seq<MemberDoc>, ids: seq<nat>, h: string)
    requires forall i :: 0 <= i < |docs| ==> docs[i].groupId == h
    ensures Snapshot(docs) == Snapshot(Revived(docs, ids)) <==> forall m: nat | m in ids :: !DeletedIn(docs, h, m)
  {
    var revived := Revived(docs, ids);
    if forall m: nat | m in ids :: !DeletedIn(docs, h, m) {
      forall i | 0 <= i < |docs| ensures revived[i] == docs[i] {
        assert docs[i].memberId in ids ==> !DeletedIn(docs, h, docs[i].memberId);
        assert Is(docs[i], h, docs[i].memberId);
      }
    } else {
      var m: nat :| m in ids && DeletedIn(docs, h, m);
      var i :| 0 <= i < |docs| && Is(docs[i], h, m) && docs[i].isDeleted.Some?;
      assert Snapshot(docs)[i] != Snapshot(revived)[i];
    }
  }

  lemma {:induction false} FindOnly(docs: seq<MemberDoc>, g: string)
    ensures forall i :: 0 <= i < |Find(docs, g)| ==> Find(docs, g)[i].groupId == g
    decreases |docs|
  {
    if docs != [] {
      FindOnly(docs[1..], g);
    }
  }

  lemma {:induction false} FindDeleted(docs: seq<MemberDoc>, g: string, m: nat)
    ensures DeletedIn(Find(docs, g), g, m) <==> DeletedIn(docs, g, m)
    decreases |docs|
  {
    if docs != [] {
      FindDeleted(docs[1..], g, m);
      DeletedCons(docs[0], docs[1..], g, m);
      assert docs == [docs[0]] + docs[1..];
      DeletedCons(docs[0], Find(docs[1..], g), g, m);
    }
  }

  lemma DeletedCons(doc: MemberDoc, docs: seq<MemberDoc>, g: string, m: nat)
    ensures DeletedIn([doc] + docs, g, m) <==> (Is(doc, g, m) && doc.isDeleted.Some?) || DeletedIn(docs, g, m)
    ensures DeletedIn([] + docs, g, m) <==> DeletedIn(docs, g, m)
  {
    var all := [doc] + docs;
    assert forall i :: 0 <= i < |docs| ==> all[i + 1] == docs[i];
    if Is(doc, g, m) && doc.isDeleted.Some? {
      assert Is(all[0], g, m);
    }
    if DeletedIn(docs, g, m) {
      var i :| 0 <= i < |docs| && Is(docs[i], g, m) && docs[i].isDeleted.Some?;
      assert Is(all[i + 1], g, m);
    }
    assert [] + docs == docs;
  }

  lemma StruckDeleted(docs: seq<MemberDoc>, g: string, m: nat, at: int, h: string, x: nat)
    requires UniqueMembers(docs)
    ensures DeletedIn(Upserted(docs, g, m, Strike(at)), h, x) <==> DeletedIn(docs, h, x) || (h == g && x == m)
  {
    hide Upserted;
    var after := Upserted(docs, g, m, Strike(at));
    UpsertedShape(docs, g, m, Strike(at));
    forall i | 0 <= i < |docs|
      ensures after[i].isDeleted == if Is(docs[i], g, m) then Some(at) else docs[i].isDeleted
    {
      if Is(docs[i], g, m) {
        UpsertedAt(docs, g, m, Strike(at), i);
      }
    }
    if DeletedIn(docs, h, x) {
      var i :| 0 <= i < |docs| && Is(docs[i], h, x) && docs[i].isDeleted.Some?;
      assert Is(after[i], h, x);
    }
    if h == g && x == m {
      UpsertedHas(docs, g, m, Strike(at), g, m);
      StruckIsDeleted(docs, after, g, m, at);
    }
    if i :| 0 <= i < |after| && Is(after[i], h, x) && after[i].isDeleted.Some? {
      if i < |docs| {
        assert Is(docs[i], h, x);
      } else {
        assert after[i] == Apply(Blank(g, m), Strike(at));
      }
    }
  }

  lemma StruckIsDeleted(docs: seq<MemberDoc>, after: seq<MemberDoc>, g: string, m: nat, at: int)
    requires |docs| <= |after| && Has(after, g, m)
    requires forall i :: 0 <= i < |docs| ==> Is(after[i], g, m) == Is(docs[i], g, m)
    requires forall i :: 0 <= i < |docs| && Is(docs[i], g, m) ==> after[i].isDeleted == Some(at)
    requires after[|docs|..] == [] || after[|docs|..] == [Apply(Blank(g, m), Strike(at))]
    ensures DeletedIn(after, g, m)
  {
    var i :| 0 <= i < |after| && Is(after[i], g, m);
    if i >= |docs| {
      assert after[i] == after[|docs|..][i - |docs|];
    }
  }

  lemma RemovedDeleted(s: Store, g: string, m: nat, actor: nat, at: int, h: string, x: nat)
    requires UniqueMembers(s.members)
    ensures DeletedIn(Removed(s, g, m, actor, at).members, h, x)
       <==> DeletedIn(s.members, h, x) || (h == g && x == m)
  {
    StruckDeleted(s.members, g, m, at, h, x);
    assert Removed(s, g, m, actor, at).members == Upserted(s.members, g, m, Strike(at));
  }

  /** So the lists do not always match: a member removed from one group and then added to another is active
    again in the first, and the first group's list does not know. */
  lemma RejoiningElsewhereGoesStale(
      s: Store, g: string, m: nat, actor: nat, at: int, h: string, memberType: int, adder: nat)
    requires UniqueMembers(s.members) && g in s.conversations && h in s.groups && h != g
    ensures var after := Added(Removed(s, g, m, actor, at), h, [m], memberType, adder);
            Active(after, g, m) && !InSync(after, g)
  {
    var removed := Removed(s, g, m, actor, at);
    OwnListInSync(s, g, [], memberType, actor, m, at);
    RemovedDeleted(s, g, m, actor, at, g, m);
    OtherListInSyncExactly(removed, h, [m], memberType, adder, g);
    assert m in [m];
    var i :| 0 <= i < |removed.members| && Is(removed.members[i], g, m) && removed.members[i].isDeleted.Some?;
    assert Has(removed.members, g, m);
    AddedActive(removed, h, [m], memberType, adder, g, m);
  }

  /** What a removal leaves behind if the database fails right after its first write. */
  function RemovalInterrupted(s: Store, g: string, m: nat, at: int): Store {
    s.(members := Upserted(s.members, g, m, Strike(at)))
  }

  ghost predicate OnlyActiveCached(s: Store) {
    forall h: string, x: nat :: CachedActive(s, h, x) ==> Active(s, h, x)
  }

  /** Such a failure leaves a removed member in reach of messages exactly when the list showed the member as
    active. */
  lemma InterruptedRemovalExactly(s: Store, g: string, m: nat, at: int)
    requires Invariant(s)
    ensures OnlyActiveCached(RemovalInterrupted(s, g, m, at)) <==> !CachedActive(s, g, m)
  {
    hide Active, CachedActive, Invariant;
    var after := RemovalInterrupted(s, g, m, at);
    forall h: string, x: nat
      ensures CachedActive(after, h, x) <==> CachedActive(s, h, x)
      ensures Active(after, h, x) <==> Active(s, h, x) && !(h == g && x == m)
      ensures CachedActive(s, h, x) ==> Active(s, h, x)
    {
      InterruptedAt(s, g, m, at, h, x);
    }
  }

  lemma InterruptedAt(s: Store, g: string, m: nat, at: int, h: string, x: nat)
    requires Invariant(s)
    ensures var after := RemovalInterrupted(s, g, m, at);
            && (CachedActive(after, h, x) <==> CachedActive(s, h, x))
            && (Active(after, h, x) <==> Active(s, h, x) && !(h == g && x == m))
            && (CachedActive(s, h, x) ==> Active(s, h, x))
  {
    StruckActive(s.members, g, m, at, h, x);
    if CachedActive(s, h, x) {
      InvariantActive(s, h, x);
    }
  }
}
