/** The group service itself: its operations change the collections and the cache in place. */
module GroupsService {
  import opened Wrappers
  import opened GroupStore
  import opened GroupInvariants
  import opened GroupOperations

  /** A JavaScript array of user ids, shared between a caller and the service. */
  class IdList {
    var items: seq<nat>

    constructor (items: seq<nat>)
      ensures this.items == items
    {
      this.items := items;
    }

    function IndexOf(id: nat): (index: int)
      reads this
      ensures -1 <= index < |items|
      ensures index >= 0 ==> items[index] == id && id !in items[..index]
      ensures index < 0 ==> id !in items
    {
      IndexIn(items, id)
    }

    method Splice(index: nat, count: nat)
      requires index + count <= |items|
      modifies this
      ensures items == old(items)[..index] + old(items)[index + count..]
    {
      items := items[..index] + items[index + count..];
    }
  }

  function IndexIn(items: seq<nat>, id: nat): (index: int)
    ensures -1 <= index < |items|
    ensures index >= 0 ==> items[index] == id && id !in items[..index]
    ensures index < 0 ==> id !in items
  {
    if items == [] then -1
    else if items[0] == id then 0
    else
      var rest := IndexIn(items[1..], id);
      if rest < 0 then -1 else rest + 1
  }

  lemma {:induction false} SpliceIsWithoutFirst(items: seq<nat>, id: nat)
    requires id in items
    ensures var index := IndexIn(items, id);
            0 <= index < |items| && items[..index] + items[index + 1..] == WithoutFirst(items, id)
    decreases |items|
  {
    if items[0] != id {
      SpliceIsWithoutFirst(items[1..], id);
      SpliceAfterFirst(items, IndexIn(items[1..], id));
    }
  }

  /** A splice past the first item leaves the first in place. */
  lemma SpliceAfterFirst(items: seq<nat>, rest: nat)
    requires rest + 1 < |items|
    ensures items[..rest + 1] + items[rest + 2..] == [items[0]] + (items[1..][..rest] + items[1..][rest + 1..])
  {
    assert items[..rest + 1] == [items[0]] + items[1..][..rest];
    assert items[rest + 2..] == items[1..][rest + 1..];
  }

  lemma MergedNothing(ids: seq<nat>)
    ensures Merged([], ids) == Merge([], ids)
  {
  }

  /** What the pass does at one receiver. */
  function MergedStep(merge: Merge, last: Receiver): Merge {
    if last.userId in merge.rest then
      Merge(merge.receivers + [Plain(last.userId)], WithoutFirst(merge.rest, last.userId))
    else
      Merge(merge.receivers + [last], merge.rest)
  }

  lemma MergedSnoc(front: seq<Receiver>, last: Receiver, ids: seq<nat>)
    ensures Merged(front + [last], ids) == MergedStep(Merged(front, ids), last)
  {
    assert (front + [last])[..|front|] == front;
  }

  /** One entry of a bulk write: an update with upsert of one member's document. */
  datatype UpsertDoc = UpsertDoc(groupId: string, memberId: nat, change: Change)

  class Service {
    var groups: map<string, GroupDoc>
    var members: seq<MemberDoc>
    var conversations: map<string, Conversation>
    var cache: map<string, seq<CacheEntry>>

    ghost function State(): Store
      reads this
    {
      Store(groups, members, conversations, cache)
    }

    constructor ()
      ensures State() == EMPTY
    {
      groups, members, conversations, cache := map[], [], map[], map[];
    }

    method SyncGroupMemberToRedis(groupId: string)
      modifies this`cache
      ensures State() == Synced(old(State()), groupId)
    {
      var groupMembersAll := Find(members, groupId);
      var syncGroupInfo: seq<CacheEntry> := [];
      for i := 0 to |groupMembersAll|
        invariant syncGroupInfo == Snapshot(groupMembersAll)[..i]
      {
        var member := groupMembersAll[i];
        syncGroupInfo := syncGroupInfo + [CacheEntry(member.memberId, member.isDeleted)];
      }
      assert Snapshot(groupMembersAll)[..|groupMembersAll|] == Snapshot(groupMembersAll);
      cache := cache[groupId := syncGroupInfo];
    }

    /** `writes` is how many of the four writes succeed before the database fails. */
    method CreateGroup(id: string, createdBy: nat, writes: nat) returns (ok: bool)
      modifies this
      ensures State() == Created(old(State()), id, createdBy, writes)
      ensures ok <==> writes >= 4
    {
      if writes < 1 {
        return false;
      }
      groups := groups[id := GroupDoc(createdBy, None)];
      if writes < 2 {
        return false;
      }
      members := members + [MemberDoc(id, createdBy, Some(ADMIN), Some(createdBy), Some(createdBy), None)];
      if writes < 3 {
        return false;
      }
      conversations := conversations[id := Conversation(Some(createdBy), [Plain(createdBy)])];
      if writes < 4 {
        return false;
      }
      SyncGroupMemberToRedis(id);
      ok := true;
    }

    method BulkWrite(bulkUpsert: seq<UpsertDoc>, ghost groupId: string, ghost ids: seq<nat>,
                     ghost memberType: int, ghost actor: nat)
      requires |bulkUpsert| == |ids|
      requires forall i :: 0 <= i < |ids| ==>
        bulkUpsert[i] == UpsertDoc(groupId, ids[i], Enrol(memberType, actor))
      modifies this`members
      ensures members == Enrolled(old(members), groupId, ids, memberType, actor)
    {
      assert ids[..0] == [];
      for i := 0 to |bulkUpsert|
        invariant members == Enrolled(old(members), groupId, ids[..i], memberType, actor)
      {
        var op := bulkUpsert[i];
        members := Upserted(members, op.groupId, op.memberId, op.change);
        assert ids[..i + 1][..i] == ids[..i];
      }
      assert ids[..|ids|] == ids;
    }

    /** The pass over the receivers: re-added ones are replaced in place and spliced out of the list of ids,
      which is the caller's own. */
    method CrossOffReceivers(stored: seq<Receiver>, memberIdsTemp: IdList) returns (receivers: seq<Receiver>)
      modifies memberIdsTemp
      ensures Merge(receivers, memberIdsTemp.items) == Merged(stored, old(memberIdsTemp.items))
    {
      hide Merged, WithoutFirst;
      ghost var ids := memberIdsTemp.items;
      MergedNothing(ids);
      receivers := stored;
      for index := 0 to |stored|
        invariant |receivers| == |stored| && receivers[index..] == stored[index..]
        invariant Merged(stored[..index], ids) == Merge(receivers[..index], memberIdsTemp.items)
      {
        assert stored[index] == receivers[index..][0];
        assert stored[..index + 1] == stored[..index] + [stored[index]];
        MergedSnoc(stored[..index], stored[index], ids);
        var memberId := receivers[index].userId;
        if memberId in memberIdsTemp.items {
          receivers := receivers[index := Plain(memberId)];
          var position := memberIdsTemp.IndexOf(memberId);
          if position >= 0 {
            SpliceIsWithoutFirst(memberIdsTemp.items, memberId);
            memberIdsTemp.Splice(position, 1);
          }
        }
        assert receivers[..index + 1] == receivers[..index] + [receivers[index]];
      }
      assert stored[..|stored|] == stored && receivers[..|stored|] == receivers;
    }

    /** Both passes: the ids that are left are appended to the receivers. */
    method MergeReceivers(stored: seq<Receiver>, memberIdsTemp: IdList) returns (receivers: seq<Receiver>)
      modifies memberIdsTemp
      ensures receivers == WithAdded(stored, old(memberIdsTemp.items))
      ensures memberIdsTemp.items == Merged(stored, old(memberIdsTemp.items)).rest
    {
      receivers := CrossOffReceivers(stored, memberIdsTemp);
      ghost var merge := Merge(receivers, memberIdsTemp.items);
      for i := 0 to |memberIdsTemp.items|
        invariant memberIdsTemp.items == merge.rest
        invariant receivers == merge.receivers + Receivers(merge.rest)[..i]
      {
        receivers := receivers + [Plain(memberIdsTemp.items[i])];
      }
    }

    /** The reply carries the caller's own list, which by then holds only the ids that were new. */
    method AddGroupMembers(groupId: string, memberIds: IdList, memberType: int, createdBy: nat)
      returns (reply: Result<IdList, Error>)
      modifies this, memberIds
      ensures State() == Added(old(State()), groupId, old(memberIds.items), memberType, createdBy)
      ensures match AddedReply(old(State()), groupId, old(memberIds.items)) {
                case Success(rest) => reply == Success(memberIds) && memberIds.items == rest
                case Failure(error) => reply == Failure(error) && memberIds.items == old(memberIds.items)
              }
      ensures reply == Failure(NoGroupFound) <==> groupId !in old(groups)
      ensures reply == Failure(ConversationNotFound) <==> groupId in old(groups) && groupId !in old(conversations)
      ensures reply.Success? ==>
        reply.data == memberIds && LeftOver(old(conversations)[groupId].receivers, old(memberIds.items), memberIds.items)
    {
      ReplyIsWhatWasNew(State(), groupId, memberIds.items);
      if groupId !in groups {
        return Failure(NoGroupFound);
      }
      ghost var ids := memberIds.items;
      var bulkUpsert: seq<UpsertDoc> := [];
      for i := 0 to |memberIds.items|
        invariant memberIds.items == ids && |bulkUpsert| == i
        invariant forall k :: 0 <= k < i ==>
          bulkUpsert[k] == UpsertDoc(groupId, ids[k], Enrol(memberType, createdBy))
        invariant State() == old(State())
      {
        bulkUpsert := bulkUpsert + [UpsertDoc(groupId, memberIds.items[i], Enrol(memberType, createdBy))];
      }
      BulkWrite(bulkUpsert, groupId, ids, memberType, createdBy);
      members := Revived(members, memberIds.items);
      if groupId !in conversations {
        return Failure(ConversationNotFound);
      }
      var conversation := conversations[groupId];
      var receivers := MergeReceivers(conversation.receivers, memberIds);
      conversations := conversations[groupId := conversation.(receivers := receivers)];
      SyncGroupMemberToRedis(groupId);
      reply := Success(memberIds);
    }

    /** Each receiver with the member's id is overwritten with the record of its leaving. */
    method MarkReceivers(stored: seq<Receiver>, memberId: nat, action: Action) returns (receivers: seq<Receiver>)
      ensures receivers == Marked(stored, memberId, action)
    {
      receivers := stored;
      for index := 0 to |stored|
        invariant |receivers| == |stored|
        invariant forall k :: 0 <= k < index ==> receivers[k] == Marked(stored, memberId, action)[k]
        invariant forall k :: index <= k < |stored| ==> receivers[k] == stored[k]
      {
        if receivers[index].userId == memberId {
          receivers := receivers[index := Receiver(memberId, Some(action))];
        }
      }
    }

    method RemoveGroupMember(userId: nat, groupId: string, memberId: nat, now: int)
      returns (reply: Result<(), Error>)
      modifies this
      ensures State() == Removed(old(State()), groupId, memberId, userId, now)
      ensures reply == if groupId in old(conversations) then Success(()) else Failure(ConversationNotFound)
    {
      members := Upserted(members, groupId, memberId, Strike(now));
      if groupId !in conversations {
        return Failure(ConversationNotFound);
      }
      var conversation := conversations[groupId];
      var lastActionContent := if memberId == userId then LEAVED else REMOVED;
      var receivers := MarkReceivers(conversation.receivers, memberId,
        Action(now, userId, ACTION_MESSAGE, lastActionContent));
      conversations := conversations[groupId := conversation.(receivers := receivers)];
      SyncGroupMemberToRedis(groupId);
      reply := Success(());
    }

    method DeleteGroup(id: string, userId: nat, now: int) returns (reply: Result<(), Error>)
      modifies this
      ensures State() == Deleted(old(State()), id, userId, now)
      ensures reply == if id !in old(groups) then Failure(NoGroupFound)
                       else if old(groups)[id].createdBy != userId then Failure(DeleteGroupNotAllow)
                       else Success(())
    {
      if id !in groups {
        return Failure(NoGroupFound);
      }
      if groups[id].createdBy != userId {
        return Failure(DeleteGroupNotAllow);
      }
      if id !in conversations {
        conversations := conversations[id := Conversation(None, [])];
      }
      groups := groups[id := groups[id].(isDeleted := Some(now))];
      reply := Success(());
    }

    method UpdateGroupAdmin(groupId: string, memberId: nat, memberType: int)
      modifies this`members
      ensures State() == AdminSet(old(State()), groupId, memberId, memberType)
    {
      members := SetType(members, groupId, memberId, memberType);
    }

    /** The ids of the group's active members, in some order. */
    method GetGroupMemberUserIds(id: string) returns (ids: seq<nat>)
      ensures forall m: nat :: m in ids <==> Active(State(), id, m)
      ensures UniqueMembers(members) ==> forall i, j :: 0 <= i < j < |ids| ==> ids[i] != ids[j]
    {
      ids := [];
      for i := 0 to |members|
        invariant forall m: nat :: m in ids <==> ActiveIn(members[..i], id, m)
        invariant UniqueMembers(members) ==> forall k, l :: 0 <= k < l < |ids| ==> ids[k] != ids[l]
      {
        var member := members[i];
        assert members[..i + 1] == members[..i] + [member];
        forall m: nat
          ensures ActiveIn(members[..i + 1], id, m)
             <==> ActiveIn(members[..i], id, m) || (Is(member, id, m) && member.isDeleted.None?)
        {
          ActiveSnoc(members[..i], member, id, m);
        }
        if member.groupId == id && member.isDeleted.None? {
          assert UniqueMembers(members) ==> !ActiveIn(members[..i], id, member.memberId);
          ids := ids + [member.memberId];
        }
      }
      assert members[..|members|] == members;
    }
  }
}
