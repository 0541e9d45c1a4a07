/** The records of removals among the receivers, told from the operations alone. */
module GroupActions {
  import opened Wrappers
  import opened GroupStore
  import opened ReceiverMerge
  import opened GroupInvariants
  import opened GroupEffects
  import opened GroupReceivers
  import opened GroupOperations

  /** The operation removes the member from the group, or adds it. */
  predicate Touches(op: Op, g: string, m: nat) {
    match op
    case Add(h, ids, _, _) => h == g && m in ids
    case Remove(h, x, _, _) => h == g && x == m
    case _ => false
  }

  /** The position of the last such operation. */
  function LastTouch(ops: seq<Op>, g: string, m: nat): (last: Option<nat>)
    ensures last.Some? ==>
      && last.value < |ops| && Touches(ops[last.value], g, m)
      && forall i :: last.value < i < |ops| ==> !Touches(ops[i], g, m)
    ensures last.None? ==> forall i :: 0 <= i < |ops| ==> !Touches(ops[i], g, m)
  {
    if ops == [] then None
    else if Touches(ops[|ops| - 1], g, m) then Some(|ops| - 1)
    else LastTouch(ops[..|ops| - 1], g, m)
  }

  /** The receiver carries the record of the last operation on the member, if that was a removal, and else none. */
  predicate AsLastTouched(ops: seq<Op>, g: string, receiver: Receiver) {
    match LastTouch(ops, g, receiver.userId)
    case None => receiver.action.None?
    case Some(i) =>
      match ops[i]
      case Remove(_, m, actor, at) => receiver.action.Some? && RecordsRemoval(receiver.action.value, m, actor, at)
      case _ => receiver.action.None?
  }

  ghost predicate AllAsLastTouched(ops: seq<Op>, s: Store) {
    forall g :: g in s.conversations ==>
      forall i :: 0 <= i < |s.conversations[g].receivers| ==> AsLastTouched(ops, g, s.conversations[g].receivers[i])
  }

  // ---------- Groups come before their conversations, and removals leave documents ----------

  ghost predicate ConversationsHaveGroups(s: Store) {
    forall g :: g in s.conversations ==> g in s.groups
  }

  ghost predicate RemovalsLeaveDocuments(ops: seq<Op>, s: Store) {
    forall i :: 0 <= i < |ops| && ops[i].Remove? ==> Has(s.members, ops[i].groupId, ops[i].memberId)
  }

  lemma StepKeepsDocuments(s: Store, op: Op, g: string, m: nat)
    requires Has(s.members, g, m)
    ensures Has(Step(s, op).members, g, m)
  {
    match op
    case Create(id, actor, writes) =>
      HasSnoc(s.members, MemberDoc(id, actor, Some(ADMIN), Some(actor), Some(actor), None), g, m);
    case Add(h, ids, memberType, actor) => JoinedHas(s.members, h, ids, memberType, actor, g, m);
    case Remove(h, x, actor, at) => UpsertedHas(s.members, h, x, Strike(at), g, m);
    case Delete(h, actor, at) =>
    case UpdateAdmin(h, x, memberType) =>
      SetTypeShape(s.members, h, x, memberType);
      var i :| 0 <= i < |s.members| && Is(s.members[i], g, m);
      assert Is(Step(s, op).members[i], g, m);
  }

  lemma StepHasGroups(s: Store, op: Op)
    requires ConversationsHaveGroups(s)
    ensures ConversationsHaveGroups(Step(s, op))
  {
  }

  lemma {:induction false} GroupsAndDocuments(ops: seq<Op>)
    ensures ConversationsHaveGroups(Run(ops)) && RemovalsLeaveDocuments(ops, Run(ops))
    decreases |ops|
  {
    hide Step, Has;
    if ops != [] {
      var front, op := ops[..|ops| - 1], ops[|ops| - 1];
      GroupsAndDocuments(front);
      StepHasGroups(Run(front), op);
      forall i | 0 <= i < |ops| && ops[i].Remove? ensures Has(Run(ops).members, ops[i].groupId, ops[i].memberId) {
        if i < |front| {
          assert front[i] == ops[i];
          StepKeepsDocuments(Run(front), op, ops[i].groupId, ops[i].memberId);
        } else {
          RemovalLeavesDocument(Run(front), op);
        }
      }
    }
  }

  lemma RemovalLeavesDocument(s: Store, op: Op)
    requires op.Remove?
    ensures Has(Step(s, op).members, op.groupId, op.memberId)
  {
    UpsertedHas(s.members, op.groupId, op.memberId, Strike(op.at), op.groupId, op.memberId);
  }

  // ---------- One step ----------

  lemma LastTouchStep(front: seq<Op>, op: Op, g: string, m: nat)
    ensures LastTouch(front + [op], g, m) == if Touches(op, g, m) then Some(|front|) else LastTouch(front, g, m)
  {
    assert (front + [op])[..|front|] == front;
  }

  lemma Untouched(front: seq<Op>, op: Op, g: string, receiver: Receiver)
    requires AsLastTouched(front, g, receiver) && !Touches(op, g, receiver.userId)
    ensures AsLastTouched(front + [op], g, receiver)
  {
    LastTouchStep(front, op, g, receiver.userId);
  }

  /** A receiver without a record is right if it is being added, or was never removed from the group. */
  lemma NewReceiver(front: seq<Op>, op: Op, g: string, receiver: Receiver)
    requires receiver.action.None? && !op.Remove?
    requires Touches(op, g, receiver.userId)
             || forall i :: 0 <= i < |front| && front[i].Remove? ==> front[i].groupId != g
    ensures AsLastTouched(front + [op], g, receiver)
  {
    LastTouchStep(front, op, g, receiver.userId);
  }

  lemma CreatedActions(front: seq<Op>, s: Store, op: Op)
    requires op.Create? && Fresh(s, op.id) && AllAsLastTouched(front, s) && RemovalsLeaveDocuments(front, s)
    ensures AllAsLastTouched(front + [op], Step(s, op))
  {
    hide AsLastTouched;
    CreatedWrites(s, op.id, op.actor, op.writes);
    forall i | 0 <= i < |front| && front[i].Remove? ensures front[i].groupId != op.id {
      assert Has(s.members, front[i].groupId, front[i].memberId);
    }
    var after := Step(s, op);
    forall g, i | g in after.conversations && 0 <= i < |after.conversations[g].receivers|
      ensures AsLastTouched(front + [op], g, after.conversations[g].receivers[i])
    {
      if g == op.id {
        NewReceiver(front, op, g, after.conversations[g].receivers[i]);
      } else {
        assert Get(after.conversations, g) == Get(s.conversations, g);
        Untouched(front, op, g, s.conversations[g].receivers[i]);
      }
    }
  }

  lemma AddedActions(front: seq<Op>, s: Store, op: Op)
    requires op.Add? && AllAsLastTouched(front, s) && Agreement(s) && ConversationsHaveGroups(s)
    ensures AllAsLastTouched(front + [op], Step(s, op))
  {
    hide AsLastTouched, WithAdded, Joined;
    var after := Step(s, op);
    forall g, i | g in after.conversations && 0 <= i < |after.conversations[g].receivers|
      ensures AsLastTouched(front + [op], g, after.conversations[g].receivers[i])
    {
      if g == op.groupId && g in s.groups {
        assert Agrees(s, g);
        assert after.conversations[g].receivers == WithAdded(s.conversations[g].receivers, op.ids);
        AddedReceiver(front, op, g, s.conversations[g].receivers, i);
      } else {
        assert g in s.conversations && after.conversations[g] == s.conversations[g];
        Untouched(front, op, g, s.conversations[g].receivers[i]);
      }
    }
  }

  lemma AddedReceiver(front: seq<Op>, op: Op, g: string, receivers: seq<Receiver>, i: nat)
    requires op.Add? && op.groupId == g && Distinct(Ids(receivers)) && i < |WithAdded(receivers, op.ids)|
    requires forall k :: 0 <= k < |receivers| ==> AsLastTouched(front, g, receivers[k])
    ensures AsLastTouched(front + [op], g, WithAdded(receivers, op.ids)[i])
  {
    hide AsLastTouched;
    var receiver := WithAdded(receivers, op.ids)[i];
    if i < |receivers| {
      ReaddedLoseTheirAction(receivers, op.ids, i);
      if receivers[i].userId in op.ids {
        NewReceiver(front, op, g, receiver);
      } else {
        Untouched(front, op, g, receiver);
      }
    } else {
      AppendedAreAdded(receivers, op.ids, i);
      NewReceiver(front, op, g, receiver);
    }
  }

  lemma AppendedAreAdded(receivers: seq<Receiver>, ids: seq<nat>, i: nat)
    requires |receivers| <= i < |WithAdded(receivers, ids)|
    ensures WithAdded(receivers, ids)[i].userId in ids && WithAdded(receivers, ids)[i].action.None?
  {
    var rest := Merged(receivers, ids).rest;
    MergeLength(receivers, ids);
    var x := rest[i - |receivers|];
    OccursIn(rest, x);
    MergeCounts(receivers, ids, x);
    OccursIn(ids, x);
  }

  lemma RemovedActions(front: seq<Op>, s: Store, op: Op)
    requires op.Remove? && AllAsLastTouched(front, s)
    ensures AllAsLastTouched(front + [op], Step(s, op))
  {
    hide AsLastTouched;
    var after := Step(s, op);
    forall g, i | g in after.conversations && 0 <= i < |after.conversations[g].receivers|
      ensures AsLastTouched(front + [op], g, after.conversations[g].receivers[i])
    {
      if g == op.groupId {
        RemovedReceivers(s, g, op.memberId, op.actor, op.at);
        var was, now := s.conversations[g].receivers[i], after.conversations[g].receivers[i];
        if was.userId == op.memberId {
          RemovedReceiver(front, op, now);
        } else {
          Untouched(front, op, g, was);
        }
      } else {
        assert g in s.conversations && after.conversations[g] == s.conversations[g];
        Untouched(front, op, g, s.conversations[g].receivers[i]);
      }
    }
  }

  lemma RemovedReceiver(front: seq<Op>, op: Op, receiver: Receiver)
    requires op.Remove? && receiver.userId == op.memberId
    requires receiver.action.Some? && RecordsRemoval(receiver.action.value, op.memberId, op.actor, op.at)
    ensures AsLastTouched(front + [op], op.groupId, receiver)
  {
    LastTouchStep(front, op, op.groupId, receiver.userId);
  }

  lemma OtherActions(front: seq<Op>, s: Store, op: Op)
    requires (op.Delete? || op.UpdateAdmin?) && AllAsLastTouched(front, s)
    ensures AllAsLastTouched(front + [op], Step(s, op))
  {
    hide AsLastTouched;
    var after := Step(s, op);
    forall g, i | g in after.conversations && 0 <= i < |after.conversations[g].receivers|
      ensures AsLastTouched(front + [op], g, after.conversations[g].receivers[i])
    {
      assert g in s.conversations && after.conversations[g] == s.conversations[g];
      Untouched(front, op, g, s.conversations[g].receivers[i]);
    }
  }

  // ---------- Every run ----------

  /** Over every careful run a receiver carries the record of its last removal exactly when nothing has added it
    to the group since. */
  lemma {:induction false} ActionsAreOfLastTouch(ops: seq<Op>)
    requires CarefulRun(ops)
    ensures AllAsLastTouched(ops, Run(ops))
    decreases |ops|
  {
    hide Step, AllAsLastTouched, RemovalsLeaveDocuments, ConversationsHaveGroups, Agreement;
    if ops == [] {
      NothingTouched();
    } else {
      var front, op := ops[..|ops| - 1], ops[|ops| - 1];
      CarefulPrefix(ops);
      ActionsAreOfLastTouch(front);
      ReceiversAgree(front);
      GroupsAndDocuments(front);
      assert ops == front + [op];
      match op
      case Create(_, _, _) => CreatedActions(front, Run(front), op);
      case Add(_, _, _, _) => AddedActions(front, Run(front), op);
      case Remove(_, _, _, _) => RemovedActions(front, Run(front), op);
      case Delete(_, _, _) => OtherActions(front, Run(front), op);
      case UpdateAdmin(_, _, _) => OtherActions(front, Run(front), op);
    }
  }

  lemma NothingTouched()
    ensures AllAsLastTouched([], EMPTY)
  {
  }
}
