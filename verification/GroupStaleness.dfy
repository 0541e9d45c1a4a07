/** How far a cached member list lags behind the database: by the additions made since it was last written. */
module GroupStaleness {
  import opened Wrappers
  import opened GroupStore
  import opened GroupInvariants
  import opened GroupEffects

  /** The step writes the cached list of `g`. */
  predicate Syncs(s: Store, op: Op, g: string) {
    match op
    case Create(id, _, writes) => id == g && writes >= 4
    case Add(h, _, _, _) => h == g && g in s.groups && g in s.conversations
    case Remove(h, _, _, _) => h == g && g in s.conversations
    case _ => false
  }

  /** The users added to any group since the list of `g` was last written. */
  function AddedSince(ops: seq<Op>, g: string): set<nat> {
    if ops == [] then {}
    else
      var front, op := ops[..|ops| - 1], ops[|ops| - 1];
      if Syncs(Run(front), op, g) then {}
      else if op.Add? && op.groupId in Run(front).groups then AddedSince(front, g) + set id | id in op.ids
      else AddedSince(front, g)
  }

  /** The list without the deletion marks of the given users. */
  function Unmarked(entries: seq<CacheEntry>, users: set<nat>): (r: seq<CacheEntry>)
    ensures |r| == |entries|
  {
    seq(|entries|, i requires 0 <= i < |entries| =>
      if entries[i].userId in users then entries[i].(isDeleted := None) else entries[i])
  }

  /** The list of `g`, less the marks of the given users, is what the database holds. */
  predicate BehindBy(s: Store, g: string, users: set<nat>) {
    g in s.cache ==> Snapshot(Find(s.members, g)) == Unmarked(s.cache[g], users)
  }

  // ---------- One step ----------

  lemma SyncedIsBehindByNone(s: Store, op: Op, g: string)
    requires Syncs(s, op, g)
    ensures BehindBy(Step(s, op), g, {})
  {
    var s' := Step(s, op);
    assert Unmarked(s'.cache[g], {}) == s'.cache[g];
  }

  lemma UnmarkedTwice(entries: seq<CacheEntry>, a: set<nat>, b: set<nat>)
    ensures Unmarked(Unmarked(entries, a), b) == Unmarked(entries, a + b)
  {
  }

  lemma RevivedIsUnmarked(docs: seq<MemberDoc>, ids: seq<nat>)
    ensures Snapshot(Revived(docs, ids)) == Unmarked(Snapshot(docs), set id | id in ids)
  {
  }

  lemma AddedElsewhere(s: Store, h: string, ids: seq<nat>, memberType: int, actor: nat, g: string, users: set<nat>)
    requires BehindBy(s, g, users) && h in s.groups && h != g
    ensures BehindBy(Added(s, h, ids, memberType, actor), g, users + set id | id in ids)
  {
    var after := Added(s, h, ids, memberType, actor);
    if g in after.cache {
      FindJoinedElsewhere(s.members, h, ids, memberType, actor, g);
      assert Find(after.members, g) == Revived(Find(s.members, g), ids);
      RevivedIsUnmarked(Find(s.members, g), ids);
      UnmarkedTwice(s.cache[g], users, set id | id in ids);
    }
  }

  lemma CreatedElsewhere(s: Store, id: string, actor: nat, writes: nat, g: string, users: set<nat>)
    requires BehindBy(s, g, users) && Fresh(s, id) && !(id == g && writes >= 4)
    ensures BehindBy(Created(s, id, actor, writes), g, users)
  {
    var after := Created(s, id, actor, writes);
    var admin := MemberDoc(id, actor, Some(ADMIN), Some(actor), Some(actor), None);
    if g in after.cache {
      FindConcat(s.members, [admin], g);
      assert Find([admin], g) == [];
      assert Find(s.members, g) + [] == Find(s.members, g);
    }
  }

  lemma StepIsBehindBy(s: Store, op: Op, g: string, users: set<nat>)
    requires Invariant(s) && (op.Create? ==> Fresh(s, op.id))
    requires BehindBy(s, g, users) && !Syncs(s, op, g)
    ensures BehindBy(Step(s, op), g,
                     if op.Add? && op.groupId in s.groups then users + set id | id in op.ids else users)
  {
    hide Unmarked, Find, Snapshot;
    match op
    case Create(id, actor, writes) => CreatedElsewhere(s, id, actor, writes, g, users);
    case Add(h, ids, memberType, actor) =>
      if h in s.groups && h != g {
        AddedElsewhere(s, h, ids, memberType, actor, g, users);
      }
    case Remove(h, m, actor, at) =>
      if h != g {
        FindUpsertedElsewhere(s.members, h, m, Strike(at), g);
      }
    case Delete(h, actor, at) =>
    case UpdateAdmin(h, m, memberType) => FindSetType(s.members, h, m, memberType, g);
  }

  // ---------- Every run ----------

  /** In every reachable state a cached list differs from the database by exactly the deletion marks of the
    users added anywhere since it was last written. */
  lemma {:induction false} ListIsBehindByAdded(ops: seq<Op>, g: string)
    requires FreshIds(ops)
    ensures BehindBy(Run(ops), g, AddedSince(ops, g))
    decreases |ops|
  {
    hide BehindBy, Invariant, Step, Syncs, FreshIds;
    if ops == [] {
      NothingBehind(g);
    } else {
      var front, op := ops[..|ops| - 1], ops[|ops| - 1];
      FreshFront(ops);
      ListIsBehindByAdded(front, g);
      RunKeeps(front);
      if Syncs(Run(front), op, g) {
        SyncedIsBehindByNone(Run(front), op, g);
      } else {
        StepIsBehindBy(Run(front), op, g, AddedSince(front, g));
      }
    }
  }

  lemma NothingBehind(g: string)
    ensures BehindBy(EMPTY, g, {})
  {
  }

  lemma FreshFront(ops: seq<Op>)
    requires FreshIds(ops) && ops != []
    ensures FreshIds(ops[..|ops| - 1])
    ensures ops[|ops| - 1].Create? ==> Fresh(Run(ops[..|ops| - 1]), ops[|ops| - 1].id)
  {
    var front := ops[..|ops| - 1];
    forall i | 0 <= i < |front| && front[i].Create? ensures Fresh(Run(front[..i]), front[i].id) {
      assert front[..i] == ops[..i];
    }
  }

  /** A cached list is out of step exactly when someone it shows as deleted was added to some group since it
    was last written. */
  lemma OutOfStepExactly(ops: seq<Op>, g: string)
    requires FreshIds(ops) && g in Run(ops).cache
    ensures !InSync(Run(ops), g) <==> exists m :: m in AddedSince(ops, g) && DeletedInCache(Run(ops).cache[g], m)
  {
    var entries, users := Run(ops).cache[g], AddedSince(ops, g);
    ListIsBehindByAdded(ops, g);
    if m :| m in users && DeletedInCache(entries, m) {
      var i :| 0 <= i < |entries| && entries[i].userId == m && entries[i].isDeleted.Some?;
      assert Unmarked(entries, users)[i] != entries[i];
    }
    if forall m :: m in users ==> !DeletedInCache(entries, m) {
      assert Unmarked(entries, users) == entries;
    }
  }

  /** The active members a group's messages miss are exactly those: shown as deleted, and added to some group
    since. */
  lemma MissedExactly(ops: seq<Op>, g: string, m: nat)
    requires FreshIds(ops) && g in Run(ops).cache
    ensures Active(Run(ops), g, m) && !CachedActive(Run(ops), g, m)
       <==> m in AddedSince(ops, g) && DeletedInCache(Run(ops).cache[g], m)
  {
    var s, users := Run(ops), AddedSince(ops, g);
    var entries := s.cache[g];
    ListIsBehindByAdded(ops, g);
    FindActive(s.members, g, m);
    RunKeeps(ops);
    CachedDiffer(s, g);
    UnmarkedActive(entries, users, m);
  }

  lemma UnmarkedActive(entries: seq<CacheEntry>, users: set<nat>, m: nat)
    requires DifferentUsers(entries)
    ensures ActiveInCache(Unmarked(entries, users), m) && !ActiveInCache(entries, m)
       <==> m in users && DeletedInCache(entries, m)
  {
    var after := Unmarked(entries, users);
    if i :| 0 <= i < |after| && after[i].userId == m && after[i].isDeleted.None? {
      assert entries[i].userId == m;
    }
    if i :| 0 <= i < |entries| && entries[i].userId == m && entries[i].isDeleted.Some? {
      assert after[i].userId == m;
    }
  }

  // ---------- No member is listed twice ----------

  predicate DifferentUsers(entries: seq<CacheEntry>) {
    forall i, j :: 0 <= i < j < |entries| ==> entries[i].userId != entries[j].userId
  }

  lemma {:induction false} FoundDiffer(docs: seq<MemberDoc>, g: string)
    requires UniqueMembers(docs)
    ensures DifferentUsers(Snapshot(Find(docs, g)))
    decreases |docs|
  {
    if docs != [] {
      var rest, found := docs[1..], Find(docs[1..], g);
      UniqueRest(docs);
      FoundDiffer(rest, g);
      SnapshotCons(docs[0], found);
      FoundWithin(rest, g);
      FindOnly(rest, g);
      hide UniqueMembers, Find, Snapshot;
      if docs[0].groupId == g {
        forall i | 0 <= i < |found| ensures found[i].memberId != docs[0].memberId {
          assert found[i] in rest;
        }
      }
      SnapshotUsers(found);
    }
  }

  lemma SnapshotUsers(docs: seq<MemberDoc>)
    ensures forall i :: 0 <= i < |docs| ==> Snapshot(docs)[i].userId == docs[i].memberId
  {
  }

  lemma UniqueRest(docs: seq<MemberDoc>)
    requires UniqueMembers(docs) && docs != []
    ensures UniqueMembers(docs[1..])
    ensures forall doc <- docs[1..] :: !Is(doc, docs[0].groupId, docs[0].memberId)
  {
    var rest := docs[1..];
    forall i, j | 0 <= i < j < |rest| ensures !Is(rest[j], rest[i].groupId, rest[i].memberId) {
      assert rest[i] == docs[i + 1] && rest[j] == docs[j + 1];
    }
  }

  lemma {:induction false} FoundWithin(docs: seq<MemberDoc>, g: string)
    ensures forall i :: 0 <= i < |Find(docs, g)| ==> Find(docs, g)[i] in docs
    decreases |docs|
  {
    if docs != [] {
      FoundWithin(docs[1..], g);
    }
  }

  lemma CachedDiffer(s: Store, g: string)
    requires Invariant(s) && g in s.cache
    ensures DifferentUsers(s.cache[g])
  {
    FoundDiffer(s.members, g);
    var docs := Find(s.members, g);
    forall i | 0 <= i < |docs| ensures s.cache[g][i].userId == Snapshot(docs)[i].userId {
      assert Lags(s.cache[g], docs);
    }
  }
}
