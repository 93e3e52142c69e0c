/** The protocol is not stuck: an uncontended multi-shard transaction can be carried through to the end. */
module Progress {
  import opened Bytes
  import opened Mvcc
  import opened Store
  import opened TwoPhase
  import opened TwoPhaseInvariant
  import opened Reachability

  /** None of the transaction's keys is locked by another one. */
  ghost predicate Uncontended(route: Route, s: System, t: TxnId) {
    t in s.txns && forall k :: k in Keys(s.txns[t].writes) ==> !LockedByOther(StoreOf(s, route(k)), k, t)
  }

  /** All remaining prepares go through. */
  lemma {:induction false} PrepareRest(route: Route, s0: System, s: System, t: TxnId) returns (s': System)
    requires Inv(route, s) && Reaches(route, s0, s) && Uncontended(route, s, t) && s.txns[t].phase.Preparing?
    ensures Inv(route, s') && Reaches(route, s0, s') && t in s'.txns && s'.txns[t].writes == s.txns[t].writes
    ensures s'.txns[t].phase.Preparing? && s'.txns[t].phase.acked == |s'.txns[t].phase.queue| && s'.clock == s.clock
    decreases |s.txns[t].phase.queue| - s.txns[t].phase.acked
  {
    s' := s;
    if Pending(s, t) {
      var w := NextWrite(s, t);
      assert w.key in Keys(s.txns[t].writes) by {
        LastKeys(s.txns[t].phase.queue, w.key);
        LastKeys(s.txns[t].writes, w.key);
        assert w in s.txns[t].phase.queue;
      }
      var m := Do(route, s, PrepareStep(t));
      PrepareKeepsInv(route, s, t);
      ReachesNext(route, s0, s, PrepareStep(t));
      s' := PrepareRest(route, s0, m, t);
    }
  }

  /** All commits of a decided transaction can be delivered. */
  lemma {:induction false} DeliverCommits(route: Route, s0: System, s: System, t: TxnId, n: nat) returns (s': System)
    requires Inv(route, s) && Reaches(route, s0, s)
    requires t in s.txns && s.txns[t].phase.Committed? && n <= |s.txns[t].writes|
    requires CommitMsgs(route, s.txns[t].writes, t, s.txns[t].phase.ts) <= s.net
    ensures Inv(route, s') && Reaches(route, s0, s') && s'.txns == s.txns && s'.net == s.net
    ensures forall w :: w in s.txns[t].writes[..n] ==>
                          CommitMsg(route(w.key), w.key, t, s.txns[t].phase.ts) in s'.delivered
  {
    s' := s;
    if n > 0 {
      var ws, ts := s.txns[t].writes, s.txns[t].phase.ts;
      var m := DeliverCommits(route, s0, s, t, n - 1);
      var w := ws[n - 1];
      assert w in ws;
      var msg := CommitMsg(route(w.key), w.key, t, ts);
      assert msg in CommitMsgs(route, ws, t, ts);
      DeliverKeepsInv(route, m, msg);
      ReachesNext(route, s0, m, DeliverStep(msg));
      s' := Receive(m, msg);
      assert ws[..n] == ws[..n - 1] + [w];
    }
  }

  /** A fully prepared transaction can be stamped and decided. */
  lemma DecidePrepared(route: Route, s0: System, s: System, t: TxnId, ts: Ts) returns (s': System)
    requires Inv(route, s) && Reaches(route, s0, s) && Enabled(route, s, StampStep(t, ts))
    ensures Inv(route, s') && Reaches(route, s0, s')
    ensures t in s'.txns && s'.txns[t] == Txn(s.txns[t].writes, Committed(ts))
    ensures CommitMsgs(route, s.txns[t].writes, t, ts) <= s'.net
  {
    var c := Do(route, s, StampStep(t, ts));
    CoordinatorKeepsInv(route, s, StampStep(t, ts));
    ReachesNext(route, s0, s, StampStep(t, ts));
    s' := Do(route, c, DecideStep(t));
    CoordinatorKeepsInv(route, c, DecideStep(t));
    ReachesNext(route, s0, c, DecideStep(t));
  }

  /** A written key whose commit was delivered is installed. */
  lemma DeliveredIsInstalled(route: Route, s: System, t: TxnId, k: bytes)
    requires Inv(route, s) && t in s.txns && s.txns[t].phase.Committed? && k in Keys(s.txns[t].writes)
    requires CommitMsg(route(k), k, t, s.txns[t].phase.ts) in s.delivered
    ensures VersionAt(route, s, k, s.txns[t].phase.ts) == Last(s.txns[t].writes, k)
  {
    assert DeliveredOk(route, s, CommitMsg(route(k), k, t, s.txns[t].phase.ts));
    LastKeys(s.txns[t].writes, k);
    assert Secured(route, s, t, k);
  }

  /** From any good state, an open transaction with writes on several shards and no foreign lock in its way
      can commit: prepared in any traversal order of the shards, stamped with any later timestamp, decided,
      and installed on every key. */
  lemma UncontendedCommits(route: Route, s: System, t: TxnId, order: seq<Shard>, ts: Ts) returns (s': System)
    requires Inv(route, s) && Uncontended(route, s, t) && Enabled(route, s, StartStep(t, order)) && ts > s.clock
    ensures Reaches(route, s, s')
    ensures t in s'.txns && s'.txns[t] == Txn(s.txns[t].writes, Committed(ts))
    ensures forall k :: k in Keys(s.txns[t].writes) ==> VersionAt(route, s', k, ts) == Last(s.txns[t].writes, k)
  {
    var ws := s.txns[t].writes;
    ReachesSelf(route, s);
    CoordinatorKeepsInv(route, s, StartStep(t, order));
    ReachesNext(route, s, s, StartStep(t, order));
    var b := PrepareRest(route, s, Do(route, s, StartStep(t, order)), t);
    var d := DecidePrepared(route, s, b, t, ts);
    s' := DeliverCommits(route, s, d, t, |ws|);
    assert ws[..|ws|] == ws;
    forall k | k in Keys(ws) ensures VersionAt(route, s', k, ts) == Last(ws, k) {
      var w :| w in ws && w.key == k;
      DeliveredIsInstalled(route, s', t, k);
    }
  }
}
