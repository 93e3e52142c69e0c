/** The coordinator's Commit is a run of the step system: whatever its code does for an active transaction, the
    steps do, with the same decision, timestamp and messages. */
module CommitRun {
  import opened Bytes
  import opened Mvcc
  import opened Store
  import opened TwoPhase
  import opened TwoPhaseInvariant
  import opened Reachability
  import C = Coordinator

  /** The phase that stands for an outcome. */
  ghost function PhaseAfter(result: C.Outcome, clock: nat -> Ts, acks: nat): Phase {
    match result
    case NotActive => Open
    case NoOp => Empty
    case OneShotOk => OneShotDone(clock(0))
    case OneShotError => OneShotFailed(clock(0))
    case PrepareError => Aborted
    case CommitSent => Committed(clock(acks))
  }

  /** The keys of these writes are not locked by others. */
  ghost predicate Free(route: Route, s: System, ws: seq<Write>, t: TxnId) {
    forall w :: w in ws ==> !LockedByOther(StoreOf(s, route(w.key)), w.key, t)
  }

  /** The next n prepares are acknowledged. */
  lemma {:induction false} AckPrepares(route: Route, s0: System, s: System, t: TxnId, n: nat) returns (s': System)
    requires Reaches(route, s0, s) && t in s.txns && s.txns[t].phase.Preparing?
    requires s.txns[t].phase.acked == 0 && n <= |s.txns[t].phase.queue|
    requires Free(route, s, s.txns[t].phase.queue[..n], t)
    ensures Reaches(route, s0, s')
    ensures s'.txns == s.txns[t := s.txns[t].(phase := Preparing(s.txns[t].phase.queue, n))]
    ensures s'.net == s.net && s'.clock == s.clock && s'.delivered == s.delivered
    ensures forall k :: LockedByOther(StoreOf(s', route(k)), k, t) ==> LockedByOther(StoreOf(s, route(k)), k, t)
  {
    s' := s;
    var q := s.txns[t].phase.queue;
    if n > 0 {
      assert q[..n] == q[..n - 1] + [q[n - 1]];
      var m := AckPrepares(route, s0, s, t, n - 1);
      assert q[n - 1] in q[..n];
      ReachesNext(route, s0, m, PrepareStep(t));
      s' := Do(route, m, PrepareStep(t));
    }
  }

  /** A partial traversal of the shards can be completed. */
  lemma {:induction false} Complete(route: Route, ws: seq<Write>, order: seq<Shard>) returns (full: seq<Shard>)
    requires C.Visits(route, ws, order)
    ensures Enumerates(route, ws, full) && order <= full
    decreases |Shards(route, ws) - ShardSet(order)|
  {
    full := order;
    if Shards(route, ws) - ShardSet(order) == {} {
      assert ShardSet(order) == Shards(route, ws);
    } else {
      var sh :| sh in Shards(route, ws) - ShardSet(order);
      C.VisitNext(route, ws, order, sh);
      assert Shards(route, ws) - ShardSet(order + [sh]) == Shards(route, ws) - ShardSet(order) - {sh};
      full := Complete(route, ws, order + [sh]);
    }
  }

  lemma {:induction false} QueuePrefix(route: Route, ws: seq<Write>, order: seq<Shard>, full: seq<Shard>)
    requires order <= full
    ensures Queue(route, ws, order) <= Queue(route, ws, full)
  {
    if |order| < |full| {
      QueuePrefix(route, ws, order, full[..|full| - 1]);
    } else {
      assert order == full;
    }
  }

  /** All prepares acknowledged, then the clock is read and the commits go out. */
  lemma SentIsSteps(route: Route, s: System, t: TxnId, order: seq<Shard>, ts: Ts) returns (s': System)
    requires Enabled(route, s, StartStep(t, order)) && ts > s.clock
    requires Free(route, s, Queue(route, s.txns[t].writes, order), t)
    ensures Reaches(route, s, s') && s'.txns == s.txns[t := s.txns[t].(phase := Committed(ts))]
    ensures s'.net == s.net + CommitMsgs(route, s.txns[t].writes, t, ts) && s'.clock == ts
  {
    var q := Queue(route, s.txns[t].writes, order);
    ReachesSelf(route, s);
    ReachesNext(route, s, s, StartStep(t, order));
    assert q[..|q|] == q;
    var a := AckPrepares(route, s, Do(route, s, StartStep(t, order)), t, |q|);
    ReachesNext(route, s, a, StampStep(t, ts));
    var b := Do(route, a, StampStep(t, ts));
    ReachesNext(route, s, b, DecideStep(t));
    s' := Do(route, b, DecideStep(t));
  }

  /** The transaction holds all these keys, each with its last value. */
  ghost predicate LocksAll(route: Route, s: System, t: TxnId, ws: seq<Write>) {
    forall k :: k in Keys(ws) ==>
      Last(ws, k).Some? && LockAt(route, s, k) == Some(Lock(t, Last(ws, k).value))
  }

  /** The timestamp is read after the last acknowledgement: with a clock that moves on at every reply, the messages
      of a successful two-phase Commit are sent by a run through a state in which the clock already shows the reading
      before the last one, every written key is locked with its last value, and no timestamp is taken yet. */
  lemma StampedAfterAcks(route: Route, s: System, t: TxnId, reply: nat -> bool, oneShotOk: bool, clock: nat -> Ts,
                         prepares: seq<Write>, order: seq<Shard>, sent: seq<Msg>)
    returns (before: System, s': System)
    requires Inv(route, s) && t in s.txns && s.txns[t].phase.Open? && s.clock < clock(0)
    requires forall n, m :: n < m ==> clock(n) < clock(m)
    requires C.CommitSpec(route, s.txns[t].writes, t, reply, oneShotOk, clock, C.CommitSent, prepares, order, sent)
    requires Free(route, s, prepares, t)
    ensures |prepares| > 0 && Reaches(route, s, before) && before.clock == clock(|prepares| - 1)
    ensures LocksAll(route, before, t, s.txns[t].writes) && t in before.txns && before.txns[t].phase.Preparing?
    ensures Reaches(route, before, s') && s'.net == s.net + C.SetOf(sent)
    ensures s'.txns == s.txns[t := s.txns[t].(phase := Committed(clock(|prepares|)))]
  {
    var ws, n := s.txns[t].writes, |prepares|;
    QueueNonEmpty(route, ws, order);
    before := AckAll(route, s, t, order, clock(n - 1)) by {
      if n > 1 { assert clock(0) < clock(n - 1); }
    }
    ReachesSelf(route, before);
    ReachesNext(route, before, before, StampStep(t, clock(n)));
    var c := Do(route, before, StampStep(t, clock(n)));
    ReachesNext(route, before, c, DecideStep(t));
    s' := Do(route, c, DecideStep(t));
  }

  /** All prepares are acknowledged, and the clock moves on. */
  lemma AckAll(route: Route, s: System, t: TxnId, order: seq<Shard>, now: Ts) returns (s': System)
    requires Inv(route, s) && Enabled(route, s, StartStep(t, order)) && s.clock < now
    requires Free(route, s, Queue(route, s.txns[t].writes, order), t)
    ensures Reaches(route, s, s') && s'.clock == now && s'.net == s.net && LocksAll(route, s', t, s.txns[t].writes)
    ensures var q := Queue(route, s.txns[t].writes, order);
            s'.txns == s.txns[t := s.txns[t].(phase := Preparing(q, |q|))]
  {
    var q := Queue(route, s.txns[t].writes, order);
    ReachesSelf(route, s);
    ReachesNext(route, s, s, StartStep(t, order));
    assert q[..|q|] == q;
    var a := AckPrepares(route, s, Do(route, s, StartStep(t, order)), t, |q|);
    ReachesNext(route, s, a, TickStep(now));
    s' := Do(route, a, TickStep(now));
    ReachesInv(route, s, s');
    AllLocked(route, s', t);
  }

  lemma QueueNonEmpty(route: Route, ws: seq<Write>, order: seq<Shard>)
    requires Enumerates(route, ws, order) && |order| > 0
    ensures |Queue(route, ws, order)| > 0 && |ws| > 0
  {
    assert order[0] in ShardSet(order);
    QueuePermutes(route, ws, order);
    assert |multiset(Queue(route, ws, order))| == |multiset(ws)|;
  }

  /** A fully prepared transaction holds all its keys. */
  lemma AllLocked(route: Route, s: System, t: TxnId)
    requires Inv(route, s) && t in s.txns && s.txns[t].phase.Preparing?
    requires s.txns[t].phase.acked == |s.txns[t].phase.queue|
    ensures LocksAll(route, s, t, s.txns[t].writes)
  {
    var x := s.txns[t];
    assert x.phase.queue[..|x.phase.queue|] == x.phase.queue;
    forall k | k in Keys(x.writes)
      ensures Last(x.writes, k).Some? && LockAt(route, s, k) == Some(Lock(t, Last(x.writes, k).value)) {
      LastKeys(x.writes, k);
      assert Secured(route, s, t, k);
    }
  }

  lemma ReachesInv(route: Route, s: System, s': System)
    requires Inv(route, s) && Reaches(route, s, s')
    ensures Inv(route, s')
  {
    var steps :| Exec(route, s, steps) == Some(s');
    ExecInv(route, s, steps);
  }

  lemma {:induction false} ExecInv(route: Route, s: System, steps: seq<Step>)
    requires Inv(route, s) && Exec(route, s, steps).Some?
    ensures Inv(route, Exec(route, s, steps).value)
  {
    if |steps| > 0 {
      var front := steps[..|steps| - 1];
      ExecInv(route, s, front);
      StepKeepsInv(route, Exec(route, s, front).value, steps[|steps| - 1]);
    }
  }

  /** Prepares up to the first refused one, then the aborts go out. */
  lemma RefusedIsSteps(route: Route, s: System, t: TxnId, order: seq<Shard>, n: nat) returns (s': System)
    requires Enabled(route, s, StartStep(t, order)) && n < |Queue(route, s.txns[t].writes, order)|
    requires Free(route, s, Queue(route, s.txns[t].writes, order)[..n], t)
    ensures Reaches(route, s, s') && s'.txns == s.txns[t := s.txns[t].(phase := Aborted)]
    ensures s'.net == s.net + AbortMsgs(route, s.txns[t].writes, t) && s'.clock == s.clock
  {
    ReachesSelf(route, s);
    ReachesNext(route, s, s, StartStep(t, order));
    var a := AckPrepares(route, s, Do(route, s, StartStep(t, order)), t, n);
    ReachesNext(route, s, a, PrepareFailStep(t, false));
    s' := Do(route, a, PrepareFailStep(t, false));
  }

  lemma OneShotIsSteps(route: Route, s: System, t: TxnId, shard: Shard, ts: Ts, ok: bool) returns (s': System)
    requires Enabled(route, s, OneShotStep(t, shard, ts))
    ensures Reaches(route, s, s')
    ensures s'.txns == s.txns[t := s.txns[t].(phase := if ok then OneShotDone(ts) else OneShotFailed(ts))]
    ensures s'.net == s.net + {OneShotMsg(shard, s.txns[t].writes, t, ts)} +
                      (if ok then {} else AbortMsgs(route, s.txns[t].writes, t))
  {
    ReachesSelf(route, s);
    ReachesNext(route, s, s, OneShotStep(t, shard, ts));
    var a := Do(route, s, OneShotStep(t, shard, ts));
    var step := if ok then OneShotOkStep(t) else OneShotFailStep(t);
    ReachesNext(route, s, a, step);
    s' := Do(route, a, step);
  }

  /** Every outcome of Commit on an open transaction, given a clock ahead of the system's and replies that
      acknowledge only prepares of free keys, is reached by steps that send exactly its messages. */
  lemma CommitIsSteps(route: Route, s: System, t: TxnId, reply: nat -> bool, oneShotOk: bool, clock: nat -> Ts,
                      result: C.Outcome, prepares: seq<Write>, order: seq<Shard>, sent: seq<Msg>)
    returns (s': System)
    requires t in s.txns && s.txns[t].phase.Open? && forall n :: clock(n) > s.clock
    requires C.CommitSpec(route, s.txns[t].writes, t, reply, oneShotOk, clock, result, prepares, order, sent)
    requires Free(route, s, if result.PrepareError? then prepares[..|prepares| - 1] else prepares, t)
    ensures Reaches(route, s, s') && s'.net == s.net + C.SetOf(sent)
    ensures s'.txns == s.txns[t := s.txns[t].(phase := PhaseAfter(result, clock, |prepares|))]
  {
    var ws := s.txns[t].writes;
    match result
    case NoOp =>
      ReachesSelf(route, s);
      ReachesNext(route, s, s, EmptyCommitStep(t));
      s' := Do(route, s, EmptyCommitStep(t));
    case OneShotOk =>
      var sh :| Shards(route, ws) == {sh} && sent == [OneShotMsg(sh, ws, t, clock(0))];
      s' := OneShotIsSteps(route, s, t, sh, clock(0), true);
    case OneShotError =>
      var sh :| Shards(route, ws) == {sh} && sent == [OneShotMsg(sh, ws, t, clock(0))] + C.AbortEach(route, ws, t);
      C.AbortEachSet(route, ws, t);
      s' := OneShotIsSteps(route, s, t, sh, clock(0), false);
    case PrepareError =>
      var full := Complete(route, ws, order);
      QueuePrefix(route, ws, order, full);
      C.EnumerationSize(full, Shards(route, ws));
      C.AbortEachSet(route, ws, t);
      s' := RefusedIsSteps(route, s, t, full, |prepares| - 1);
    case CommitSent =>
      s' := SentIsSteps(route, s, t, order, clock(|prepares|));
  }

  /** Abort on an open transaction is a step that records the abort, sends an abort per write and touches no store. */
  lemma AbortIsSteps(route: Route, s: System, t: TxnId) returns (s': System)
    requires t in s.txns && s.txns[t].phase.Open?
    ensures Reaches(route, s, s') && s'.txns == s.txns[t := s.txns[t].(phase := Aborted)]
    ensures s'.net == s.net + C.SetOf(C.AbortEach(route, s.txns[t].writes, t))
    ensures s'.stores == s.stores && s'.clock == s.clock && s'.delivered == s.delivered
  {
    ReachesSelf(route, s);
    ReachesNext(route, s, s, AbortStep(t));
    C.AbortEachSet(route, s.txns[t].writes, t);
    s' := Do(route, s, AbortStep(t));
  }

  /** A prepare of a free key that is reported as failed may still have taken the lock: the transaction is aborted
      and its value stays locked. */
  lemma FailedPrepareMayLock(route: Route, s: System, t: TxnId) returns (s': System)
    requires Pending(s, t) && NextFree(route, s, t)
    ensures Reaches(route, s, s') && s'.txns == s.txns[t := s.txns[t].(phase := Aborted)]
    ensures s'.net == s.net + AbortMsgs(route, s.txns[t].writes, t)
    ensures var w := NextWrite(s, t);
            forall k :: LockAt(route, s', k) == if k == w.key then Some(Lock(t, w.value)) else LockAt(route, s, k)
    ensures forall k, ts: Ts :: VersionAt(route, s', k, ts) == VersionAt(route, s, k, ts)
  {
    ReachesSelf(route, s);
    ReachesNext(route, s, s, PrepareFailStep(t, true));
    s' := Do(route, s, PrepareFailStep(t, true));
  }

  /** The clock can move on to any later time without anything else happening. */
  lemma ClockAdvances(route: Route, s: System, ts: Ts)
    requires ts > s.clock
    ensures Reaches(route, s, s.(clock := ts))
  {
    ReachesSelf(route, s);
    ReachesNext(route, s, s, TickStep(ts));
  }
}
