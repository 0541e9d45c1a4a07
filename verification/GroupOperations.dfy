/** What each operation writes, field by field, and what it leaves alone. */
module GroupOperations {
  import opened Wrappers
  import opened GroupStore
  import opened GroupInvariants
  import opened GroupEffects
  import opened ReceiverMerge

  /** The conversations of all other groups are as before, and the group's own keeps its initiator. */
  predicate OtherConversationsKept(before: Store, after: Store, g: string) {
    && after.conversations.Keys == before.conversations.Keys
    && (forall h :: h in before.conversations && h != g ==> after.conversations[h] == before.conversations[h])
    && (g in before.conversations ==> after.conversations[g].initiator == before.conversations[g].initiator)
  }

  ghost predicate OtherListsKept(before: Store, after: Store, g: string) {
    forall h: string :: h != g ==> Get(after.cache, h) == Get(before.cache, h)
  }

  // ---------- Creating ----------

  /** Each write that succeeds leaves its part of the new group: the group of its creator, the creator as
    administrator, the conversation with the creator alone, and the list. Nothing else changes. */
  lemma CreatedWrites(s: Store, id: string, actor: nat, writes: nat)
    requires Fresh(s, id)
    ensures var after := Created(s, id, actor, writes);
            && Get(after.groups, id) == (if writes >= 1 then Some(GroupDoc(actor, None)) else None)
            && (forall i :: 0 <= i < |s.members| ==> i < |after.members| && after.members[i] == s.members[i])
            && |after.members| == |s.members| + (if writes >= 2 then 1 else 0)
            && (writes >= 2 ==>
                  after.members[|s.members|] == MemberDoc(id, actor, Some(1), Some(actor), Some(actor), None))
            && Get(after.conversations, id)
               == (if writes >= 3 then Some(Conversation(Some(actor), [Receiver(actor, None)])) else None)
            && Get(after.cache, id) == (if writes >= 4 then Some([CacheEntry(actor, None)]) else None)
            && (forall h: string :: h != id ==> Get(after.groups, h) == Get(s.groups, h)
                                                && Get(after.conversations, h) == Get(s.conversations, h)
                                                && Get(after.cache, h) == Get(s.cache, h))
  {
    var after := Created(s, id, actor, writes);
    var admin := MemberDoc(id, actor, Some(ADMIN), Some(actor), Some(actor), None);
    if writes >= 4 {
      FindNothing(s.members, id);
      FindConcat(s.members, [admin], id);
      assert [admin][1..] == [];
      assert Find(after.members, id) == [admin];
      assert Snapshot([admin]) == [CacheEntry(actor, None)];
    }
  }

  // ---------- Adding ----------

  /** The list the caller gets back: for any lists, each id as often as it was added less as often as it was a
    receiver, and without repeated ids the added ones that were no receivers, in order. */
  lemma ReplyIsWhatWasNew(s: Store, g: string, ids: seq<nat>)
    ensures AddedReply(s, g, ids) == Failure(NoGroupFound) <==> g !in s.groups
    ensures AddedReply(s, g, ids) == Failure(ConversationNotFound) <==> g in s.groups && g !in s.conversations
    ensures AddedReply(s, g, ids).Success? <==> g in s.groups && g in s.conversations
    ensures AddedReply(s, g, ids).Success? ==> LeftOver(s.conversations[g].receivers, ids, AddedReply(s, g, ids).data)
  {
    if g in s.groups && g in s.conversations {
      var receivers := s.conversations[g].receivers;
      forall x: nat
        ensures Occurs(Merged(receivers, ids).rest, x) == Minus(Occurs(ids, x), Occurs(Ids(receivers), x))
      {
        MergeCounts(receivers, ids, x);
      }
      if Distinct(ids) {
        RestIsTheNewIds(receivers, ids);
      }
    }
  }

  function Minus(m: nat, n: nat): nat {
    if m < n then 0 else m - n
  }

  ghost predicate LeftOver(receivers: seq<Receiver>, ids: seq<nat>, left: seq<nat>) {
    && (forall x: nat :: Occurs(left, x) == Minus(Occurs(ids, x), Occurs(Ids(receivers), x)))
    && (Distinct(ids) ==> left == Except(ids, Ids(receivers)))
  }

  /** Adding changes no group, no other conversation and no other list. */
  lemma AddedFrame(s: Store, g: string, ids: seq<nat>, memberType: int, actor: nat)
    ensures var after := Added(s, g, ids, memberType, actor);
            after.groups == s.groups && OtherConversationsKept(s, after, g) && OtherListsKept(s, after, g)
    ensures g !in s.groups ==> Added(s, g, ids, memberType, actor) == s
  {
  }

  // ---------- Removing ----------

  /** The record of a removal: when, by whom, and whether the member left or was removed. */
  predicate RecordsRemoval(action: Action, m: nat, actor: nat, at: int) {
    && action.at == at && action.actor == actor && action.kind == 8
    && action.content == (if m == actor then "You left the group" else "You were removed from group")
  }

  /** Removing puts its record on the receivers with the member's id, and on no other. */
  lemma RemovedReceivers(s: Store, g: string, m: nat, actor: nat, at: int)
    requires g in s.conversations
    ensures var was, now := s.conversations[g].receivers, Removed(s, g, m, actor, at).conversations[g].receivers;
            && |now| == |was|
            && forall i :: 0 <= i < |was| ==>
                 && now[i].userId == was[i].userId
                 && (was[i].userId != m ==> now[i] == was[i])
                 && (was[i].userId == m ==> now[i].action.Some? && RecordsRemoval(now[i].action.value, m, actor, at))
  {
  }

  /** Removing dates the deletion of the member's document, with an upsert that leaves out the role where there
    is none, and changes no other document, no group, no other conversation and no other list. */
  lemma RemovedDocuments(s: Store, g: string, m: nat, actor: nat, at: int, i: nat)
    requires UniqueMembers(s.members) && i < |Removed(s, g, m, actor, at).members|
    ensures var after := Removed(s, g, m, actor, at);
            && var doc := after.members[i];
            && (Is(doc, g, m) ==> doc == (if i < |s.members| then s.members[i] else MemberDoc(g, m, None, None, None, None))
                                         .(isDeleted := Some(at)))
            && (!Is(doc, g, m) ==> i < |s.members| && doc == s.members[i])
            && |s.members| <= |after.members|
            && after.groups == s.groups && OtherConversationsKept(s, after, g) && OtherListsKept(s, after, g)
  {
    UpsertedShape(s.members, g, m, Strike(at));
    if i < |s.members| && Is(s.members[i], g, m) {
      UpsertedAt(s.members, g, m, Strike(at), i);
    }
  }

  // ---------- Deleting a group and setting a role ----------

  /** Only its creator marks a group as deleted, and only that group; a missing conversation is made up, empty.
    Members and cached lists stay. */
  lemma DeletedGroup(s: Store, g: string, actor: nat, at: int)
    ensures var after := Deleted(s, g, actor, at);
            && after.members == s.members && after.cache == s.cache
            && after.groups.Keys == s.groups.Keys
            && (forall h :: h in s.groups ==>
                  && after.groups[h].createdBy == s.groups[h].createdBy
                  && after.groups[h].isDeleted
                     == if h == g && s.groups[h].createdBy == actor then Some(at) else s.groups[h].isDeleted)
            && (forall h :: h in s.conversations ==> h in after.conversations && after.conversations[h] == s.conversations[h])
            && (forall h :: h in after.conversations && h !in s.conversations ==>
                  && h == g && g in s.groups && s.groups[g].createdBy == actor
                  && after.conversations[h].receivers == [] && after.conversations[h].initiator == None)
  {
  }

  lemma {:induction false} SetTypeAt(docs: seq<MemberDoc>, g: string, m: nat, memberType: int, i: nat)
    requires UniqueMembers(docs) && i < |docs|
    ensures |SetType(docs, g, m, memberType)| == |docs|
    ensures SetType(docs, g, m, memberType)[i]
         == if Is(docs[i], g, m) then docs[i].(memberType := Some(memberType)) else docs[i]
    decreases |docs|
  {
    SetTypeShape(docs, g, m, memberType);
    if i > 0 {
      assert docs[1..][i - 1] == docs[i];
      assert Is(docs[0], g, m) ==> !Is(docs[i], docs[0].groupId, docs[0].memberId);
      assert UniqueMembers(docs[1..]);
      SetTypeAt(docs[1..], g, m, memberType, i - 1);
    }
  }

  /** Setting a role changes the role of the member's document and nothing else; it adds no member. */
  lemma AdminSetRole(s: Store, g: string, m: nat, memberType: int, i: nat)
    requires UniqueMembers(s.members) && i < |s.members|
    ensures var after := AdminSet(s, g, m, memberType);
            && |after.members| == |s.members|
            && after.members[i].memberType
               == (if Is(s.members[i], g, m) then Some(memberType) else s.members[i].memberType)
            && after.members[i].(memberType := s.members[i].memberType) == s.members[i]
            && after.groups == s.groups && after.conversations == s.conversations && after.cache == s.cache
  {
    SetTypeAt(s.members, g, m, memberType, i);
  }
}
