/** Who is in a group, told from the operations alone. */
module GroupMembership {
  import opened Wrappers
  import opened GroupStore
  import opened GroupInvariants
  import opened GroupEffects
  import opened GroupReceivers
  import opened GroupStaleness

  /** The group has been created, at least its own document. */
  ghost predicate Founded(ops: seq<Op>, g: string) {
    exists i :: 0 <= i < |ops| && ops[i].Create? && ops[i].id == g && ops[i].writes >= 1
  }

  /** The operation gives the member a document in the group: a removal does so too. */
  ghost predicate Enters(before: seq<Op>, op: Op, g: string, m: nat) {
    match op
    case Create(id, actor, writes) => id == g && actor == m && writes >= 2
    case Add(h, ids, _, _) => h == g && m in ids && Founded(before, g)
    case Remove(h, x, _, _) => h == g && x == m
    case _ => false
  }

  ghost predicate Entered(ops: seq<Op>, g: string, m: nat) {
    exists i :: 0 <= i < |ops| && Enters(ops[..i], ops[i], g, m)
  }

  /** The operation makes the user an active member: by founding the group, by being added to it, or, once in its
    collection, by being added to any group. */
  ghost predicate Joins(before: seq<Op>, op: Op, g: string, m: nat) {
    match op
    case Create(id, actor, writes) => id == g && actor == m && writes >= 2
    case Add(h, ids, _, _) => m in ids && Founded(before, h) && (h == g || Entered(before, g, m))
    case _ => false
  }

  predicate Leaves(op: Op, g: string, m: nat) {
    op.Remove? && op.groupId == g && op.memberId == m
  }

  /** The user has joined and not been removed since. */
  ghost predicate IsMember(ops: seq<Op>, g: string, m: nat) {
    exists i :: 0 <= i < |ops| && Joins(ops[..i], ops[i], g, m) && forall j :: i < j < |ops| ==> !Leaves(ops[j], g, m)
  }

  // ---------- One operation more ----------

  lemma Prefixes(ops: seq<Op>)
    requires ops != []
    ensures forall i :: 0 <= i < |ops| - 1 ==> ops[..|ops| - 1][..i] == ops[..i] && ops[..|ops| - 1][i] == ops[i]
  {
  }

  lemma FoundedLast(ops: seq<Op>, g: string)
    requires ops != []
    ensures var front, last := ops[..|ops| - 1], ops[|ops| - 1];
            Founded(ops, g) <==> Founded(front, g) || (last.Create? && last.id == g && last.writes >= 1)
  {
    var front := ops[..|ops| - 1];
    if Founded(front, g) {
      var i :| 0 <= i < |front| && front[i].Create? && front[i].id == g && front[i].writes >= 1;
      assert ops[i] == front[i];
    }
    if i :| 0 <= i < |front| && ops[i].Create? && ops[i].id == g && ops[i].writes >= 1 {
      assert front[i] == ops[i];
    }
  }

  lemma EnteredLast(ops: seq<Op>, g: string, m: nat)
    requires ops != []
    ensures var front, last := ops[..|ops| - 1], ops[|ops| - 1];
            Entered(ops, g, m) <==> Entered(front, g, m) || Enters(front, last, g, m)
  {
    hide Enters;
    var front := ops[..|ops| - 1];
    Prefixes(ops);
    if i :| 0 <= i < |front| && Enters(front[..i], front[i], g, m) {
      assert Enters(ops[..i], ops[i], g, m);
    }
    if i :| 0 <= i < |front| && Enters(ops[..i], ops[i], g, m) {
      assert Enters(front[..i], front[i], g, m);
    }
  }

  lemma IsMemberLast(ops: seq<Op>, g: string, m: nat)
    requires ops != []
    ensures var front, last := ops[..|ops| - 1], ops[|ops| - 1];
            IsMember(ops, g, m) <==> Joins(front, last, g, m) || (IsMember(front, g, m) && !Leaves(last, g, m))
  {
    hide Joins, Leaves;
    var front, n := ops[..|ops| - 1], |ops| - 1;
    Prefixes(ops);
    if IsMember(front, g, m) && !Leaves(ops[n], g, m) {
      var i :| 0 <= i < n && Joins(front[..i], front[i], g, m) && forall j :: i < j < n ==> !Leaves(front[j], g, m);
      assert Joins(ops[..i], ops[i], g, m);
      assert forall j :: i < j < |ops| ==> !Leaves(ops[j], g, m);
    }
    if IsMember(ops, g, m) && !Joins(front, ops[n], g, m) {
      var i :| 0 <= i < |ops| && Joins(ops[..i], ops[i], g, m) && forall j :: i < j < |ops| ==> !Leaves(ops[j], g, m);
      assert Joins(front[..i], front[i], g, m);
      assert forall j :: i < j < n ==> !Leaves(front[j], g, m);
    }
  }

  lemma StepHas(s: Store, op: Op, g: string, m: nat)
    ensures Has(Step(s, op).members, g, m) <==>
            || Has(s.members, g, m)
            || (op.Create? && op.id == g && op.actor == m && op.writes >= 2)
            || (op.Add? && op.groupId == g && m in op.ids && g in s.groups)
            || (op.Remove? && op.groupId == g && op.memberId == m)
  {
    match op
    case Create(id, actor, writes) =>
      HasSnoc(s.members, MemberDoc(id, actor, Some(ADMIN), Some(actor), Some(actor), None), g, m);
    case Add(h, ids, memberType, actor) => JoinedHas(s.members, h, ids, memberType, actor, g, m);
    case Remove(h, x, actor, at) => UpsertedHas(s.members, h, x, Strike(at), g, m);
    case Delete(h, actor, at) =>
    case UpdateAdmin(h, x, memberType) =>
      var after := Step(s, op).members;
      SetTypeShape(s.members, h, x, memberType);
      if i :| 0 <= i < |s.members| && Is(s.members[i], g, m) {
        assert Is(after[i], g, m);
      }
      if i :| 0 <= i < |after| && Is(after[i], g, m) {
        assert Is(s.members[i], g, m);
      }
  }

  lemma StepActive(s: Store, op: Op, g: string, m: nat)
    requires UniqueMembers(s.members)
    ensures Active(Step(s, op), g, m) <==>
            || (op.Create? && op.id == g && op.actor == m && op.writes >= 2)
            || (op.Add? && m in op.ids && op.groupId in s.groups && (op.groupId == g || Has(s.members, g, m)))
            || (Active(s, g, m) && !Leaves(op, g, m))
  {
    match op
    case Create(id, actor, writes) =>
      ActiveSnoc(s.members, MemberDoc(id, actor, Some(ADMIN), Some(actor), Some(actor), None), g, m);
    case Add(h, ids, memberType, actor) =>
      if h in s.groups {
        AddedActive(s, h, ids, memberType, actor, g, m);
      }
    case Remove(h, x, actor, at) => RemovedActive(s, h, x, actor, at, g, m);
    case Delete(h, actor, at) =>
    case UpdateAdmin(h, x, memberType) =>
      var after := Step(s, op).members;
      SetTypeShape(s.members, h, x, memberType);
      if i :| 0 <= i < |s.members| && Is(s.members[i], g, m) && s.members[i].isDeleted.None? {
        assert Is(after[i], g, m);
      }
      if i :| 0 <= i < |after| && Is(after[i], g, m) && after[i].isDeleted.None? {
        assert Is(s.members[i], g, m);
      }
  }

  lemma StepFounds(s: Store, op: Op, g: string)
    ensures g in Step(s, op).groups <==> g in s.groups || (op.Create? && op.id == g && op.writes >= 1)
  {
  }

  // ---------- Every run ----------

  lemma {:induction false} GroupsAreFounded(ops: seq<Op>, g: string)
    ensures g in Run(ops).groups <==> Founded(ops, g)
    decreases |ops|
  {
    hide Step, Founded;
    if ops == [] {
      NothingHappened(g, 0);
    } else {
      FoundedLast(ops, g);
      GroupsAreFounded(ops[..|ops| - 1], g);
      StepFounds(Run(ops[..|ops| - 1]), ops[|ops| - 1], g);
    }
  }

  /** After any operations the collection has a member exactly if an operation has entered it. */
  lemma {:induction false} CollectionRefinesHistory(ops: seq<Op>, g: string, m: nat)
    ensures Has(Run(ops).members, g, m) <==> Entered(ops, g, m)
    decreases |ops|
  {
    hide Step, Has, Entered, Founded;
    if ops == [] {
      NothingHappened(g, m);
    } else {
      var front := ops[..|ops| - 1];
      EnteredLast(ops, g, m);
      CollectionRefinesHistory(front, g, m);
      GroupsAreFounded(front, g);
      StepHas(Run(front), ops[|ops| - 1], g, m);
    }
  }

  /** After any operations with fresh ids the active members of a group are those who have joined and not been
    removed since. */
  lemma {:induction false} MembershipRefinesHistory(ops: seq<Op>, g: string, m: nat)
    requires FreshIds(ops)
    ensures Active(Run(ops), g, m) <==> IsMember(ops, g, m)
    decreases |ops|
  {
    hide Step, Has, Active, Entered, Founded, IsMember, Invariant, FreshIds;
    if ops == [] {
      NothingHappened(g, m);
    } else {
      var front, op := ops[..|ops| - 1], ops[|ops| - 1];
      FreshFront(ops);
      MembershipRefinesHistory(front, g, m);
      IsMemberLast(ops, g, m);
      CollectionRefinesHistory(front, g, m);
      UniqueInRun(front);
      if op.Add? {
        GroupsAreFounded(front, op.groupId);
      }
      StepActive(Run(front), op, g, m);
    }
  }

  lemma UniqueInRun(ops: seq<Op>)
    requires FreshIds(ops)
    ensures UniqueMembers(Run(ops).members)
  {
    RunKeeps(ops);
  }

  lemma NothingHappened(g: string, m: nat)
    ensures !Founded([], g) && !Entered([], g, m) && !IsMember([], g, m)
    ensures g !in EMPTY.groups && !Has(EMPTY.members, g, m) && !Active(EMPTY, g, m)
  {
  }
}
