/** What the group operations keep: the member collection, the conversations and the cached member lists, and
  the state each operation leaves behind. */
module GroupStore {
  import opened Wrappers

  datatype GroupDoc = GroupDoc(createdBy: nat, isDeleted: Option<int>)

  /** A document of the member collection; documents stand in the order they were inserted. */
  datatype MemberDoc = MemberDoc(
    groupId: string, memberId: nat,
    memberType: Option<int>, createdBy: Option<nat>, modifiedBy: Option<nat>, isDeleted: Option<int>)

  datatype Action = Action(at: int, actor: nat, kind: int, content: string)

  datatype Receiver = Receiver(userId: nat, action: Option<Action>)

  datatype Conversation = Conversation(initiator: Option<nat>, receivers: seq<Receiver>)

  datatype CacheEntry = CacheEntry(userId: nat, isDeleted: Option<int>)

  datatype Store = Store(
    groups: map<string, GroupDoc>,
    members: seq<MemberDoc>,
    conversations: map<string, Conversation>,
    cache: map<string, seq<CacheEntry>>)

  const EMPTY := Store(map[], [], map[], map[])

  const ADMIN := 1
  const MEMBER := 2
  const ACTION_MESSAGE := 8
  const REMOVED := "You were removed from group"
  const LEAVED := "You left the group"

  datatype Error = NoGroupFound | ConversationNotFound | DeleteGroupNotAllow

  // ---------- The member collection ----------

  /** The updates made by upserts: enrolling a member, and marking one as deleted. */
  datatype Change = Enrol(memberType: int, actor: nat) | Strike(at: int)

  function Apply(doc: MemberDoc, change: Change): MemberDoc {
    match change
    case Enrol(memberType, actor) =>
      doc.(memberType := Some(memberType), createdBy := Some(actor), modifiedBy := Some(actor))
    case Strike(at) => doc.(isDeleted := Some(at))
  }

  function Blank(groupId: string, memberId: nat): MemberDoc {
    MemberDoc(groupId, memberId, None, None, None, None)
  }

  predicate Is(doc: MemberDoc, groupId: string, memberId: nat) {
    doc.groupId == groupId && doc.memberId == memberId
  }

  /** An update with upsert: the first matching document changes, or a new one is added at the end. */
  function Upserted(docs: seq<MemberDoc>, groupId: string, memberId: nat, change: Change): seq<MemberDoc> {
    if docs == [] then [Apply(Blank(groupId, memberId), change)]
    else if Is(docs[0], groupId, memberId) then [Apply(docs[0], change)] + docs[1..]
    else [docs[0]] + Upserted(docs[1..], groupId, memberId, change)
  }

  function Enrolled(docs: seq<MemberDoc>, groupId: string, ids: seq<nat>, memberType: int, actor: nat): seq<MemberDoc>
    decreases |ids|
  {
    if ids == [] then docs
    else
      var front := Enrolled(docs, groupId, ids[..|ids| - 1], memberType, actor);
      Upserted(front, groupId, ids[|ids| - 1], Enrol(memberType, actor))
  }

  /** Unsetting the deletion mark of the given members, in whatever group they are. */
  function Revived(docs: seq<MemberDoc>, ids: seq<nat>): (r: seq<MemberDoc>)
    ensures |r| == |docs|
  {
    seq(|docs|, i requires 0 <= i < |docs| => if docs[i].memberId in ids then docs[i].(isDeleted := None) else docs[i])
  }

  function Find(docs: seq<MemberDoc>, groupId: string): seq<MemberDoc> {
    if docs == [] then []
    else (if docs[0].groupId == groupId then [docs[0]] else []) + Find(docs[1..], groupId)
  }

  function SetType(docs: seq<MemberDoc>, groupId: string, memberId: nat, memberType: int): seq<MemberDoc> {
    if docs == [] then []
    else if Is(docs[0], groupId, memberId) then [docs[0].(memberType := Some(memberType))] + docs[1..]
    else [docs[0]] + SetType(docs[1..], groupId, memberId, memberType)
  }

  // ---------- The cached list ----------

  function Snapshot(docs: seq<MemberDoc>): (r: seq<CacheEntry>)
    ensures |r| == |docs|
  {
    seq(|docs|, i requires 0 <= i < |docs| => CacheEntry(docs[i].memberId, docs[i].isDeleted))
  }

  function Synced(s: Store, groupId: string): Store {
    s.(cache := s.cache[groupId := Snapshot(Find(s.members, groupId))])
  }

  // ---------- The receivers of a conversation ----------

  function Plain(userId: nat): Receiver {
    Receiver(userId, None)
  }

  function WithoutFirst(ids: seq<nat>, id: nat): seq<nat> {
    if ids == [] then []
    else if ids[0] == id then ids[1..]
    else [ids[0]] + WithoutFirst(ids[1..], id)
  }

  datatype Merge = Merge(receivers: seq<Receiver>, rest: seq<nat>)

  /** One pass over the receivers: each one among the added ids is written afresh and its id crossed off. */
  function Merged(receivers: seq<Receiver>, ids: seq<nat>): Merge {
    if receivers == [] then Merge([], ids)
    else
      var front := Merged(receivers[..|receivers| - 1], ids);
      var last := receivers[|receivers| - 1];
      if last.userId in front.rest then
        Merge(front.receivers + [Plain(last.userId)], WithoutFirst(front.rest, last.userId))
      else
        Merge(front.receivers + [last], front.rest)
  }

  function Receivers(ids: seq<nat>): (r: seq<Receiver>)
    ensures |r| == |ids|
  {
    seq(|ids|, i requires 0 <= i < |ids| => Plain(ids[i]))
  }

  /** The receivers after ids are added. */
  function WithAdded(receivers: seq<Receiver>, ids: seq<nat>): seq<Receiver> {
    var merge := Merged(receivers, ids);
    merge.receivers + Receivers(merge.rest)
  }

  function Marked(receivers: seq<Receiver>, memberId: nat, action: Action): (r: seq<Receiver>)
    ensures |r| == |receivers|
  {
    seq(|receivers|, i requires 0 <= i < |receivers| =>
      if receivers[i].userId == memberId then Receiver(memberId, Some(action)) else receivers[i])
  }

  function LeaveAction(memberId: nat, actor: nat, at: int): Action {
    Action(at, actor, ACTION_MESSAGE, if memberId == actor then LEAVED else REMOVED)
  }

  // ---------- The operations ----------

  /** `createGroup`: four writes, of which the first `writes` succeed before a failure of the database. */
  function Created(s: Store, id: string, actor: nat, writes: nat): Store {
    var s1 := if writes >= 1 then s.(groups := s.groups[id := GroupDoc(actor, None)]) else s;
    var admin := MemberDoc(id, actor, Some(ADMIN), Some(actor), Some(actor), None);
    var s2 := if writes >= 2 then s1.(members := s1.members + [admin]) else s1;
    var s3 := if writes >= 3
              then s2.(conversations := s2.conversations[id := Conversation(Some(actor), [Plain(actor)])]) else s2;
    if writes >= 4 then Synced(s3, id) else s3
  }

  /** The member collection after `addGroupMembers`. */
  function Joined(docs: seq<MemberDoc>, groupId: string, ids: seq<nat>, memberType: int, actor: nat): seq<MemberDoc> {
    Revived(Enrolled(docs, groupId, ids, memberType, actor), ids)
  }

  function SetReceivers(s: Store, groupId: string, receivers: seq<Receiver>): Store
    requires groupId in s.conversations
  {
    s.(conversations := s.conversations[groupId := s.conversations[groupId].(receivers := receivers)])
  }

  function Added(s: Store, groupId: string, ids: seq<nat>, memberType: int, actor: nat): Store {
    if groupId !in s.groups then s
    else
      var s1 := s.(members := Joined(s.members, groupId, ids, memberType, actor));
      if groupId !in s1.conversations then s1
      else Synced(SetReceivers(s1, groupId, WithAdded(s1.conversations[groupId].receivers, ids)), groupId)
  }

  /** The reply of `addGroupMembers`: the list it was given, from which the pass over the receivers has crossed
    off the ids found there. */
  function AddedReply(s: Store, groupId: string, ids: seq<nat>): Result<seq<nat>, Error> {
    if groupId !in s.groups then Failure(NoGroupFound)
    else if groupId !in s.conversations then Failure(ConversationNotFound)
    else Success(Merged(s.conversations[groupId].receivers, ids).rest)
  }

  function Removed(s: Store, groupId: string, memberId: nat, actor: nat, at: int): Store {
    var s1 := s.(members := Upserted(s.members, groupId, memberId, Strike(at)));
    if groupId !in s1.conversations then s1
    else
      var receivers := Marked(s1.conversations[groupId].receivers, memberId, LeaveAction(memberId, actor, at));
      Synced(SetReceivers(s1, groupId, receivers), groupId)
  }

  function Deleted(s: Store, groupId: string, actor: nat, at: int): Store {
    if groupId !in s.groups || s.groups[groupId].createdBy != actor then s
    else
      var conversations :=
        if groupId in s.conversations then s.conversations else s.conversations[groupId := Conversation(None, [])];
      s.(conversations := conversations, groups := s.groups[groupId := s.groups[groupId].(isDeleted := Some(at))])
  }

  function AdminSet(s: Store, groupId: string, memberId: nat, memberType: int): Store {
    s.(members := SetType(s.members, groupId, memberId, memberType))
  }

  datatype Op =
    | Create(id: string, actor: nat, writes: nat)
    | Add(groupId: string, ids: seq<nat>, memberType: int, actor: nat)
    | Remove(groupId: string, memberId: nat, actor: nat, at: int)
    | Delete(groupId: string, actor: nat, at: int)
    | UpdateAdmin(groupId: string, memberId: nat, memberType: int)

  function Step(s: Store, op: Op): Store {
    match op
    case Create(id, actor, writes) => Created(s, id, actor, writes)
    case Add(g, ids, memberType, actor) => Added(s, g, ids, memberType, actor)
    case Remove(g, m, actor, at) => Removed(s, g, m, actor, at)
    case Delete(g, actor, at) => Deleted(s, g, actor, at)
    case UpdateAdmin(g, m, memberType) => AdminSet(s, g, m, memberType)
  }

  function Run(ops: seq<Op>): Store {
    if ops == [] then EMPTY else Step(Run(ops[..|ops| - 1]), ops[|ops| - 1])
  }

  /** The id of a new group is one the database has not used. */
  ghost predicate Fresh(s: Store, id: string) {
    && id !in s.groups && id !in s.conversations && id !in s.cache
    && forall i :: 0 <= i < |s.members| ==> s.members[i].groupId != id
  }

  ghost predicate FreshIds(ops: seq<Op>) {
    forall i :: 0 <= i < |ops| && ops[i].Create? ==> Fresh(Run(ops[..i]), ops[i].id)
  }

  // ---------- Who is in a group ----------

  predicate ActiveIn(docs: seq<MemberDoc>, groupId: string, m: nat) {
    exists i :: 0 <= i < |docs| && Is(docs[i], groupId, m) && docs[i].isDeleted.None?
  }

  /** A member of the group the database does not count as deleted. */
  predicate Active(s: Store, groupId: string, m: nat) {
    ActiveIn(s.members, groupId, m)
  }

  predicate ActiveInCache(entries: seq<CacheEntry>, m: nat) {
    exists i :: 0 <= i < |entries| && entries[i].userId == m && entries[i].isDeleted.None?
  }

  /** A member the cache shows as active; a group without a cached list shows none. */
  predicate CachedActive(s: Store, groupId: string, m: nat) {
    groupId in s.cache && ActiveInCache(s.cache[groupId], m)
  }
}
