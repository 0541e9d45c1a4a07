/** The session registry told from the events alone: who subscribed where last, and what has undone it since. */
module SessionHistory {
  import opened Wrappers
  import opened Sessions

  /** The socket has subscribed as the user, and nothing since has ended that. */
  ghost predicate SpeaksFor(ops: seq<Op>, c: ClientId, u: string)
    decreases |ops|, 0
  {
    && u != ""
    && exists i :: 0 <= i < |ops| && ops[i] == Subscribe(c, u) && forall j :: i < j < |ops| ==> !Ends(ops[..j], ops[j], c)
  }

  /** The socket subscribes again, leaves, or is displaced: another socket subscribes as the user that has been
    reached on this one. */
  ghost predicate Ends(before: seq<Op>, op: Op, c: ClientId)
    decreases |before|, 1
  {
    match op
    case Subscribe(d, v) => v != "" && (d == c || ReachedOn(before, v, c))
    case Unsubscribe(d) => d == c
    case Disconnect(d) => d == c
  }

  /** The user has subscribed on the socket, and nothing since has undone that. */
  ghost predicate ReachedOn(ops: seq<Op>, u: string, c: ClientId)
    decreases |ops|, 0
  {
    && u != ""
    && exists i :: 0 <= i < |ops| && ops[i] == Subscribe(c, u) && forall j :: i < j < |ops| ==> !Frees(ops[..j], ops[j], u)
  }

  /** The user subscribes again, or a socket that speaks for the user leaves; for a user called "null" it is
    enough that a socket that speaks for nobody unsubscribes. */
  ghost predicate Frees(before: seq<Op>, op: Op, u: string)
    decreases |before|, 1
  {
    match op
    case Subscribe(d, v) => v == u
    case Unsubscribe(d) => SpeaksFor(before, d, u) || (u == "null" && forall w: string :: !SpeaksFor(before, d, w))
    case Disconnect(d) => SpeaksFor(before, d, u)
  }

  lemma SpeaksForIf(ops: seq<Op>, c: ClientId, u: string, i: nat)
    requires u != "" && i < |ops| && ops[i] == Subscribe(c, u)
    requires forall j :: i < j < |ops| ==> !Ends(ops[..j], ops[j], c)
    ensures SpeaksFor(ops, c, u)
  {
    hide Ends;
  }

  lemma SpeaksForSince(ops: seq<Op>, c: ClientId, u: string) returns (i: nat)
    requires SpeaksFor(ops, c, u)
    ensures u != "" && i < |ops| && ops[i] == Subscribe(c, u)
    ensures forall j :: i < j < |ops| ==> !Ends(ops[..j], ops[j], c)
  {
    hide Ends;
    i :| 0 <= i < |ops| && ops[i] == Subscribe(c, u) && forall j :: i < j < |ops| ==> !Ends(ops[..j], ops[j], c);
  }

  lemma SpeaksForLast(ops: seq<Op>, c: ClientId, u: string)
    requires ops != []
    ensures var front, last := ops[..|ops| - 1], ops[|ops| - 1];
            SpeaksFor(ops, c, u) <==>
            (u != "" && last == Subscribe(c, u)) || (SpeaksFor(front, c, u) && !Ends(front, last, c))
  {
    hide SpeaksFor, Ends;
    var front, last := ops[..|ops| - 1], ops[|ops| - 1];
    assert ops[..|front|] == front;
    forall j | 0 <= j < |front| ensures front[..j] == ops[..j] {
    }
    if u != "" && last == Subscribe(c, u) {
      SpeaksForIf(ops, c, u, |front|);
    } else if SpeaksFor(front, c, u) && !Ends(front, last, c) {
      var i := SpeaksForSince(front, c, u);
      SpeaksForIf(ops, c, u, i);
    } else if SpeaksFor(ops, c, u) {
      var i := SpeaksForSince(ops, c, u);
      SpeaksForIf(front, c, u, i);
    }
  }

  lemma ReachedOnIf(ops: seq<Op>, u: string, c: ClientId, i: nat)
    requires u != "" && i < |ops| && ops[i] == Subscribe(c, u)
    requires forall j :: i < j < |ops| ==> !Frees(ops[..j], ops[j], u)
    ensures ReachedOn(ops, u, c)
  {
    hide Frees;
  }

  lemma ReachedOnSince(ops: seq<Op>, u: string, c: ClientId) returns (i: nat)
    requires ReachedOn(ops, u, c)
    ensures u != "" && i < |ops| && ops[i] == Subscribe(c, u)
    ensures forall j :: i < j < |ops| ==> !Frees(ops[..j], ops[j], u)
  {
    hide Frees;
    i :| 0 <= i < |ops| && ops[i] == Subscribe(c, u) && forall j :: i < j < |ops| ==> !Frees(ops[..j], ops[j], u);
  }

  lemma ReachedOnLast(ops: seq<Op>, u: string, c: ClientId)
    requires ops != []
    ensures var front, last := ops[..|ops| - 1], ops[|ops| - 1];
            ReachedOn(ops, u, c) <==>
            (u != "" && last == Subscribe(c, u)) || (ReachedOn(front, u, c) && !Frees(front, last, u))
  {
    hide ReachedOn, Frees;
    var front, last := ops[..|ops| - 1], ops[|ops| - 1];
    assert ops[..|front|] == front;
    forall j | 0 <= j < |front| ensures front[..j] == ops[..j] {
    }
    if u != "" && last == Subscribe(c, u) {
      ReachedOnIf(ops, u, c, |front|);
    } else if ReachedOn(front, u, c) && !Frees(front, last, u) {
      var i := ReachedOnSince(front, u, c);
      ReachedOnIf(ops, u, c, i);
    } else if ReachedOn(ops, u, c) {
      var i := ReachedOnSince(ops, u, c);
      ReachedOnIf(front, u, c, i);
    }
  }

  /** After any events a socket's user, and a user's socket, are what the events say. */
  lemma {:induction false} RegistryRefinesHistory(ops: seq<Op>)
    ensures forall c: ClientId, u: string :: Get(Run(ops).users, c) == Some(u) <==> SpeaksFor(ops, c, u)
    ensures forall u: string, c: ClientId :: Get(Run(ops).sockets, u) == Some(c) <==> ReachedOn(ops, u, c)
    decreases |ops|
  {
    if ops != [] {
      var front, op := ops[..|ops| - 1], ops[|ops| - 1];
      RegistryRefinesHistory(front);
      forall c: ClientId, u: string
        ensures Get(Run(ops).users, c) == Some(u) <==> SpeaksFor(ops, c, u)
        ensures Get(Run(ops).sockets, u) == Some(c) <==> ReachedOn(ops, u, c)
      {
        SpeaksForLast(ops, c, u);
        ReachedOnLast(ops, u, c);
        hide SpeaksFor, ReachedOn, Run;
        StepRefines(Run(front), front, op, c, u);
        assert Run(ops) == Step(Run(front), op) by {
          RunStep(ops, |front|);
          assert ops[..|front| + 1] == ops;
        }
      }
    }
  }

  lemma StepRefines(s: Session, before: seq<Op>, op: Op, c: ClientId, u: string)
    requires forall d: ClientId, v: string :: Get(s.users, d) == Some(v) <==> SpeaksFor(before, d, v)
    requires forall v: string, d: ClientId :: Get(s.sockets, v) == Some(d) <==> ReachedOn(before, v, d)
    ensures Get(Step(s, op).users, c) == Some(u) <==>
            (u != "" && op == Subscribe(c, u)) || (SpeaksFor(before, c, u) && !Ends(before, op, c))
    ensures Get(Step(s, op).sockets, u) == Some(c) <==>
            (u != "" && op == Subscribe(c, u)) || (ReachedOn(before, u, c) && !Frees(before, op, u))
  {
    assert forall d: ClientId :: !SpeaksFor(before, d, "");
    hide SpeaksFor, ReachedOn;
    match op
    case Subscribe(d, v) =>
      assert Get(s.sockets, v) == Some(c) <==> ReachedOn(before, v, c);
    case Unsubscribe(d) =>
      assert d in s.users ==> SpeaksFor(before, d, s.users[d]);
      assert Get(s.users, d) == Some(u) <==> SpeaksFor(before, d, u);
    case Disconnect(d) =>
      assert d in s.users ==> SpeaksFor(before, d, s.users[d]);
      assert Get(s.users, d) == Some(u) <==> SpeaksFor(before, d, u);
  }

  /** So a user is sent to exactly the socket it has subscribed on last, unless that has been undone. */
  lemma TargetIsReachedOn(ops: seq<Op>, u: string, c: ClientId)
    ensures Target(Run(ops), u) == Some(c) <==> ReachedOn(ops, u, c)
  {
    RegistryRefinesHistory(ops);
  }

  /** A subscription of a user not reached before is reported with status 1, the disconnect of a socket that
    speaks for a user with status 0, each with user and socket, and nothing else is reported. */
  lemma ReportedExactly(ops: seq<Op>, op: Op)
    ensures var usage, more := Run(ops).usage, Run(ops + [op]).usage;
            match op
            case Subscribe(c, u) =>
              more == usage + if u != "" && forall d: ClientId :: !ReachedOn(ops, u, d) then [Usage(u, c, 1)] else []
            case Unsubscribe(_) => more == usage
            case Disconnect(c) =>
              && (forall u: string :: SpeaksFor(ops, c, u) ==> more == usage + [Usage(u, c, 0)])
              && ((forall u: string :: !SpeaksFor(ops, c, u)) ==> more == usage)
  {
    RegistryRefinesHistory(ops);
    assert (ops + [op])[..|ops|] == ops;
    var s := Run(ops);
    assert Run(ops + [op]) == Step(s, op);
    assert forall c: ClientId :: !SpeaksFor(ops, c, "");
    hide Run, ReachedOn, SpeaksFor;
    match op
    case Subscribe(c, u) =>
      if u in s.sockets {
        assert Get(s.sockets, u) == Some(s.sockets[u]);
        assert ReachedOn(ops, u, s.sockets[u]);
      } else {
        assert forall d: ClientId :: Get(s.sockets, u) != Some(d);
        assert forall d: ClientId :: !ReachedOn(ops, u, d);
      }
    case Unsubscribe(c) =>
    case Disconnect(c) =>
      if c in s.users {
        assert Get(s.users, c) == Some(s.users[c]);
      }
  }
}
