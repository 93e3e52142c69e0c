/** What an aborted transaction can leave behind: nothing if it wrote to several shards, everything if it wrote
    to one. */
module Aborts {
  import opened Bytes
  import opened Mvcc
  import opened Store
  import opened TwoPhase
  import opened TwoPhaseInvariant
  import opened Reachability
  import opened Progress

  /** A write of the transaction is installed at its timestamp. */
  ghost predicate Landed(route: Route, s: System, t: TxnId, k: bytes) {
    && t in s.txns && Stamp(s.txns[t]).Some? && Last(s.txns[t].writes, k).Some?
    && VersionAt(route, s, k, Stamp(s.txns[t]).value) == Last(s.txns[t].writes, k)
  }

  /** The transaction is aborted, and yet one of its writes is installed. */
  ghost predicate Leaks(route: Route, s: System, t: TxnId) {
    t in s.txns && IsAborted(s.txns[t]) && exists k :: Landed(route, s, t, k)
  }

  /** It is aborted, all its aborts were delivered, and yet every one of its writes is installed. */
  ghost predicate LeaksAll(route: Route, s: System, t: TxnId) {
    && t in s.txns && IsAborted(s.txns[t]) && AbortMsgs(route, s.txns[t].writes, t) <= s.delivered
    && forall k :: k in Keys(s.txns[t].writes) ==> Landed(route, s, t, k)
  }

  /** In every state of every run an aborted transaction with an installed write is on one shard. */
  lemma LeakIsOnOneShard(route: Route, run: seq<System>, i: nat, t: TxnId)
    requires IsRun(route, run) && i < |run| && Leaks(route, run[i], t)
    ensures |Shards(route, run[i].txns[t].writes)| == 1
  {
    RunInv(route, run, i);
    assert Recorded(route, run[i], t);
  }

  /** All aborts of a failed one-shot can be delivered; no other transaction's lock appears. */
  lemma {:induction false} DeliverAborts(route: Route, s0: System, s: System, t: TxnId, n: nat) returns (s': System)
    requires Reaches(route, s0, s) && Uncontended(route, s, t) && n <= |s.txns[t].writes|
    requires AbortMsgs(route, s.txns[t].writes, t) <= s.net
    ensures Reaches(route, s0, s') && Uncontended(route, s', t) && s'.txns == s.txns && s'.net == s.net
    ensures forall w :: w in s.txns[t].writes[..n] ==> AbortMsg(route(w.key), w.key, t) in s'.delivered
  {
    s' := s;
    if n > 0 {
      var ws := s.txns[t].writes;
      var m := DeliverAborts(route, s0, s, t, n - 1);
      var w := ws[n - 1];
      assert w in ws;
      var msg := AbortMsg(route(w.key), w.key, t);
      assert msg in AbortMsgs(route, ws, t);
      ReachesNext(route, s0, m, DeliverStep(msg));
      s' := Receive(m, msg);
      assert ws[..n] == ws[..n - 1] + [w];
    }
  }

  /** An uncontended one-shot installs all its writes when it arrives. */
  lemma OneShotInstalls(route: Route, s: System, t: TxnId, shard: Shard, ts: Ts, k: bytes)
    requires Uncontended(route, s, t) && Shards(route, s.txns[t].writes) == {shard} && k in Keys(s.txns[t].writes)
    ensures VersionAt(route, Receive(s, OneShotMsg(shard, s.txns[t].writes, t, ts)), k, ts) == Last(s.txns[t].writes, k)
  {
    var ws, store := s.txns[t].writes, StoreOf(s, shard);
    forall w | w in ws ensures route(w.key) == shard && !LockedByOther(store, w.key, t) {
      assert route(w.key) in Shards(route, ws);
      assert w.key in Keys(ws);
    }
    var w :| w in ws && w.key == k;
    InstallLast(store.versions, ws, ts, k);
  }

  /** The one-shot goes out, and the coordinator learns of a failure. */
  lemma FailOneShot(route: Route, s: System, t: TxnId, shard: Shard, ts: Ts) returns (s': System)
    requires Enabled(route, s, OneShotStep(t, shard, ts))
    ensures Reaches(route, s, s') && s'.stores == s.stores
    ensures s'.txns == s.txns[t := Txn(s.txns[t].writes, OneShotFailed(ts))]
    ensures AbortMsgs(route, s.txns[t].writes, t) <= s'.net
    ensures OneShotMsg(shard, s.txns[t].writes, t, ts) in s'.net
  {
    var a := Do(route, s, OneShotStep(t, shard, ts));
    ReachesSelf(route, s);
    ReachesNext(route, s, s, OneShotStep(t, shard, ts));
    ReachesNext(route, s, a, OneShotFailStep(t));
    s' := Do(route, a, OneShotFailStep(t));
  }

  /** From any state, an open transaction with writes on one shard and no foreign lock in its way can end
      aborted with everything installed: the send fails at the coordinator, the aborts are delivered, and
      then the one-shot arrives. */
  lemma AbortedOneShotLands(route: Route, s: System, t: TxnId, shard: Shard, ts: Ts) returns (s': System)
    requires Uncontended(route, s, t) && Enabled(route, s, OneShotStep(t, shard, ts))
    ensures Reaches(route, s, s') && LeaksAll(route, s', t) && s'.txns[t] == Txn(s.txns[t].writes, OneShotFailed(ts))
  {
    var ws := s.txns[t].writes;
    var b := FailOneShot(route, s, t, shard, ts);
    var c := DeliverAborts(route, s, b, t, |ws|);
    var msg := OneShotMsg(shard, ws, t, ts);
    ReachesNext(route, s, c, DeliverStep(msg));
    s' := Receive(c, msg);
    assert ws[..|ws|] == ws;
    forall k | k in Keys(ws) ensures Landed(route, s', t, k) {
      OneShotInstalls(route, c, t, shard, ts, k);
      LastKeys(ws, k);
    }
  }

  /** A transaction can collect any writes. */
  lemma {:induction false} AddWrites(route: Route, s: System, t: TxnId, ws: seq<Write>) returns (s': System)
    requires t !in s.txns
    ensures Reaches(route, s, s') && s' == s.(txns := s.txns[t := Txn(ws, Open)])
  {
    if |ws| == 0 {
      ReachesSelf(route, s);
      ReachesNext(route, s, s, BeginStep(t));
      s' := Do(route, s, BeginStep(t));
    } else {
      var front, w := ws[..|ws| - 1], ws[|ws| - 1];
      var m := AddWrites(route, s, t, front);
      assert front + [Write(w.key, w.value)] == ws;
      ReachesNext(route, s, m, AddWriteStep(t, w.key, w.value));
      s' := Do(route, m, AddWriteStep(t, w.key, w.value));
      assert m.txns[t := Txn(ws, Open)] == s.txns[t := Txn(ws, Open)];
    }
  }

  /** For every single-shard list of writes there is such a run. */
  lemma LeakRun(route: Route, ws: seq<Write>) returns (run: seq<System>, t: TxnId)
    requires |Shards(route, ws)| == 1
    ensures IsRun(route, run) && t in run[|run| - 1].txns && run[|run| - 1].txns[t].writes == ws
    ensures LeaksAll(route, run[|run| - 1], t)
  {
    var shard :| shard in Shards(route, ws);
    assert Shards(route, ws) == {shard} by { assert |Shards(route, ws) - {shard}| == 0; }
    var s := System(0, map[], map[], {}, {});
    t := [];
    var a := AddWrites(route, s, t, ws);
    var b := AbortedOneShotLands(route, a, t, shard, 1);
    ReachesTrans(route, s, a, b);
    var steps :| Exec(route, s, steps) == Some(b);
    run := ExecIsRun(route, s, steps);
  }

  /** The run ends with an aborted transaction that has these writes, one of them installed. */
  ghost predicate EndsLeaking(route: Route, ws: seq<Write>, run: seq<System>, t: TxnId) {
    && IsRun(route, run) && Leaks(route, run[|run| - 1], t)
    && run[|run| - 1].txns[t].writes == ws
  }

  /** A transaction with these writes can be aborted and yet have a write installed if and only if the writes
      go to one shard. */
  lemma AbortLeaksExactly(route: Route, ws: seq<Write>)
    ensures (exists run, t :: EndsLeaking(route, ws, run, t)) <==> |Shards(route, ws)| == 1
  {
    if run, t :| EndsLeaking(route, ws, run, t) {
      LeakIsOnOneShard(route, run, |run| - 1, t);
    }
    if |Shards(route, ws)| == 1 {
      var run, t := LeakRun(route, ws);
      var shard :| shard in Shards(route, ws);
      var w :| w in ws && route(w.key) == shard;
      assert Landed(route, run[|run| - 1], t, w.key);
      assert EndsLeaking(route, ws, run, t);
    }
  }
}
