/** What the pass over a conversation's receivers does when members are added. */
module ReceiverMerge {
  import opened GroupStore

  function Ids(receivers: seq<Receiver>): (ids: seq<nat>)
    ensures |ids| == |receivers|
  {
    seq(|receivers|, i requires 0 <= i < |receivers| => receivers[i].userId)
  }

  predicate Distinct(ids: seq<nat>) {
    forall i, j :: 0 <= i < j < |ids| ==> ids[i] != ids[j]
  }

  /** The ids that are not among `others`, in their order. */
  function Except(ids: seq<nat>, others: seq<nat>): seq<nat> {
    if ids == [] then []
    else (if ids[0] in others then [] else [ids[0]]) + Except(ids[1..], others)
  }

  /** How often an id occurs. */
  function Occurs(ids: seq<nat>, x: nat): nat {
    if ids == [] then 0
    else Occurs(ids[..|ids| - 1], x) + if ids[|ids| - 1] == x then 1 else 0
  }

  // ---------- Counting ----------

  lemma {:induction false} OccursConcat(a: seq<nat>, b: seq<nat>, x: nat)
    ensures Occurs(a + b, x) == Occurs(a, x) + Occurs(b, x)
    decreases |b|
  {
    if b == [] {
      assert a + b == a;
    } else {
      OccursConcat(a, b[..|b| - 1], x);
      assert (a + b)[..|a + b| - 1] == a + b[..|b| - 1];
    }
  }

  lemma OccursOne(y: nat, x: nat)
    ensures Occurs([y], x) == if y == x then 1 else 0
  {
    assert [y][..0] == [];
  }

  lemma {:induction false} OccursIn(ids: seq<nat>, x: nat)
    ensures x in ids <==> Occurs(ids, x) > 0
    decreases |ids|
  {
    if ids != [] {
      var front := ids[..|ids| - 1];
      OccursIn(front, x);
      assert ids == front + [ids[|ids| - 1]];
    }
  }

  lemma {:induction false} WithoutFirstCounts(ids: seq<nat>, id: nat, x: nat)
    ensures Occurs(WithoutFirst(ids, id), x)
         == if x == id && Occurs(ids, x) > 0 then Occurs(ids, x) - 1 else Occurs(ids, x)
    decreases |ids|
  {
    if ids != [] {
      assert ids == [ids[0]] + ids[1..];
      OccursConcat([ids[0]], ids[1..], x);
      OccursOne(ids[0], x);
      WithoutFirstCounts(ids[1..], id, x);
      OccursConcat([ids[0]], WithoutFirst(ids[1..], id), x);
    }
  }

  lemma IdsConcat(a: seq<Receiver>, b: seq<Receiver>)
    ensures Ids(a + b) == Ids(a) + Ids(b)
  {
  }

  lemma IdsSnoc(receivers: seq<Receiver>)
    requires receivers != []
    ensures var front := receivers[..|receivers| - 1];
            Ids(receivers) == Ids(front) + [receivers[|receivers| - 1].userId]
  {
  }

  lemma {:induction false} MergeKeepsIds(receivers: seq<Receiver>, ids: seq<nat>)
    ensures Ids(Merged(receivers, ids).receivers) == Ids(receivers)
    decreases |receivers|
  {
    if receivers != [] {
      var front, last := receivers[..|receivers| - 1], receivers[|receivers| - 1];
      MergeKeepsIds(front, ids);
      IdsSnoc(receivers);
      var merge := Merged(front, ids);
      IdsConcat(merge.receivers, [Plain(last.userId)]);
      IdsConcat(merge.receivers, [last]);
    }
  }

  /** For any lists, repeated ids included: the ids left over are the added ones less those already there, each
    as often as it occurs. */
  lemma {:induction false} MergeCounts(receivers: seq<Receiver>, ids: seq<nat>, x: nat)
    ensures var was, added := Occurs(Ids(receivers), x), Occurs(ids, x);
            Occurs(Merged(receivers, ids).rest, x) == if was < added then added - was else 0
    decreases |receivers|
  {
    if receivers != [] {
      var front, last := receivers[..|receivers| - 1], receivers[|receivers| - 1];
      MergeCounts(front, ids, x);
      IdsSnoc(receivers);
      assert Ids(receivers)[..|receivers| - 1] == Ids(front);
      var rest := Merged(front, ids).rest;
      OccursIn(rest, last.userId);
      WithoutFirstCounts(rest, last.userId, x);
    }
  }

  lemma ReceiversIds(ids: seq<nat>)
    ensures Ids(Receivers(ids)) == ids
  {
  }

  /** Every id ends up among the receivers as often as it was there or as it was added, whichever is more. */
  lemma AddedCounts(receivers: seq<Receiver>, ids: seq<nat>, x: nat)
    ensures var was, added := Occurs(Ids(receivers), x), Occurs(ids, x);
            Occurs(Ids(WithAdded(receivers, ids)), x) == if was < added then added else was
  {
    var merge := Merged(receivers, ids);
    MergeKeepsIds(receivers, ids);
    MergeCounts(receivers, ids, x);
    IdsConcat(merge.receivers, Receivers(merge.rest));
    ReceiversIds(merge.rest);
    OccursConcat(Ids(receivers), merge.rest, x);
  }

  // ---------- Distinct ids ----------

  lemma {:induction false} DistinctOccurOnce(ids: seq<nat>, x: nat)
    requires Distinct(ids)
    ensures Occurs(ids, x) <= 1
    decreases |ids|
  {
    if ids != [] {
      var front, last := ids[..|ids| - 1], ids[|ids| - 1];
      DistinctOccurOnce(front, x);
      OccursIn(front, x);
      assert last !in front;
    }
  }

  lemma {:induction false} OccurOnceDistinct(ids: seq<nat>)
    requires forall x: nat :: Occurs(ids, x) <= 1
    ensures Distinct(ids)
    decreases |ids|
  {
    if ids != [] {
      var front, last := ids[..|ids| - 1], ids[|ids| - 1];
      forall x: nat ensures Occurs(front, x) <= 1 {
        assert Occurs(ids, x) <= 1;
      }
      OccurOnceDistinct(front);
      OccursIn(front, last);
      assert Occurs(ids, last) == Occurs(front, last) + 1;
      forall i, j | 0 <= i < j < |ids| ensures ids[i] != ids[j] {
        assert ids[i] == front[i] && ids[i] in front;
      }
    }
  }

  /** The receivers stay distinct exactly when they were and no id is added twice. */
  lemma AddedDistinctExactly(receivers: seq<Receiver>, ids: seq<nat>)
    ensures Distinct(Ids(WithAdded(receivers, ids))) <==> Distinct(Ids(receivers)) && Distinct(ids)
  {
    hide WithAdded;
    var was, after := Ids(receivers), Ids(WithAdded(receivers, ids));
    if Distinct(after) {
      forall x: nat ensures Occurs(was, x) <= 1 && Occurs(ids, x) <= 1 {
        AddedCounts(receivers, ids, x);
        DistinctOccurOnce(after, x);
      }
      OccurOnceDistinct(was);
      OccurOnceDistinct(ids);
    }
    if Distinct(was) && Distinct(ids) {
      forall x: nat ensures Occurs(after, x) <= 1 {
        AddedCounts(receivers, ids, x);
        DistinctOccurOnce(was, x);
        DistinctOccurOnce(ids, x);
      }
      OccurOnceDistinct(after);
    }
  }

  /** The receivers afterwards are those before together with the added ids. */
  lemma AddedMembers(receivers: seq<Receiver>, ids: seq<nat>, x: nat)
    ensures x in Ids(WithAdded(receivers, ids)) <==> x in Ids(receivers) || x in ids
  {
    AddedCounts(receivers, ids, x);
    OccursIn(Ids(WithAdded(receivers, ids)), x);
    OccursIn(Ids(receivers), x);
    OccursIn(ids, x);
  }

  // ---------- Position by position ----------

  /** A receiver loses its action exactly when its id occurs in the added list more often than among the
    receivers before it; otherwise it stays as it is. */
  lemma {:induction false} MergeAt(receivers: seq<Receiver>, ids: seq<nat>, i: nat)
    requires i < |receivers|
    ensures var u := receivers[i].userId;
            && |Merged(receivers, ids).receivers| == |receivers|
            && Merged(receivers, ids).receivers[i]
            == if Occurs(Ids(receivers[..i]), u) < Occurs(ids, u) then Plain(u) else receivers[i]
    decreases |receivers|
  {
    var front := receivers[..|receivers| - 1];
    var u := receivers[i].userId;
    MergeLength(receivers, ids);
    MergeLength(front, ids);
    if i < |front| {
      MergeAt(front, ids, i);
      assert front[..i] == receivers[..i];
    } else {
      assert receivers[..i] == front;
      MergeCounts(front, ids, u);
      OccursIn(Merged(front, ids).rest, u);
    }
  }

  lemma MergeLength(receivers: seq<Receiver>, ids: seq<nat>)
    ensures |Merged(receivers, ids).receivers| == |receivers|
  {
    MergeKeepsIds(receivers, ids);
    assert |Ids(Merged(receivers, ids).receivers)| == |Ids(receivers)|;
  }

  /** With distinct receivers, exactly the re-added ones lose their action. */
  lemma ReaddedLoseTheirAction(receivers: seq<Receiver>, ids: seq<nat>, i: nat)
    requires Distinct(Ids(receivers)) && i < |receivers|
    ensures |WithAdded(receivers, ids)| >= |receivers|
    ensures WithAdded(receivers, ids)[i]
         == if receivers[i].userId in ids then Plain(receivers[i].userId) else receivers[i]
  {
    var u := receivers[i].userId;
    MergeAt(receivers, ids, i);
    assert forall j :: 0 <= j < i ==> Ids(receivers[..i])[j] == Ids(receivers)[j] != Ids(receivers)[i] == u;
    assert u !in Ids(receivers[..i]);
    OccursIn(Ids(receivers[..i]), u);
    OccursIn(ids, u);
    MergeLength(receivers, ids);
  }

  lemma {:induction false} ExceptNone(ids: seq<nat>)
    ensures Except(ids, []) == ids
    decreases |ids|
  {
    if ids != [] {
      ExceptNone(ids[1..]);
    }
  }

  lemma {:induction false} ExceptWithin(ids: seq<nat>, others: seq<nat>, x: nat)
    ensures x in Except(ids, others) <==> x in ids && x !in others
    decreases |ids|
  {
    if ids != [] {
      ExceptWithin(ids[1..], others, x);
    }
  }

  lemma {:induction false} ExceptOneMore(ids: seq<nat>, others: seq<nat>, u: nat)
    requires Distinct(ids)
    ensures Except(ids, others + [u])
         == if u in Except(ids, others) then WithoutFirst(Except(ids, others), u) else Except(ids, others)
    decreases |ids|
  {
    if ids != [] {
      var rest := Except(ids[1..], others);
      ExceptOneMore(ids[1..], others, u);
      ExceptWithin(ids[1..], others, ids[0]);
      if ids[0] in others {
        assert Except(ids, others) == rest;
      } else if ids[0] == u {
        assert Except(ids, others) == [u] + rest;
        assert WithoutFirst([u] + rest, u) == rest;
      } else {
        assert Except(ids, others) == [ids[0]] + rest;
        assert ([ids[0]] + rest)[1..] == rest;
        assert u in [ids[0]] + rest <==> u in rest;
      }
    }
  }

  /** Without repeated ids, the list that is left, and that the caller gets back, is the added list less the
    receivers that were there before, in order. */
  lemma {:induction false} RestIsTheNewIds(receivers: seq<Receiver>, ids: seq<nat>)
    requires Distinct(ids)
    ensures Merged(receivers, ids).rest == Except(ids, Ids(receivers))
    decreases |receivers|
  {
    if receivers == [] {
      ExceptNone(ids);
      assert Ids(receivers) == [];
    } else {
      var front := receivers[..|receivers| - 1];
      RestIsTheNewIds(front, ids);
      IdsSnoc(receivers);
      ExceptOneMore(ids, Ids(front), receivers[|receivers| - 1].userId);
    }
  }
}
