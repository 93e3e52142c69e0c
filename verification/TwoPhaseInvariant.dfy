/** The invariant of the two-phase commit system, kept by every step. */
module TwoPhaseInvariant {
  import opened Bytes
  import opened Mvcc
  import opened Store
  import opened TwoPhase

  // ---------- grouping keeps each key's last write ----------

  lemma {:induction false} LastConcat(a: seq<Write>, b: seq<Write>, k: bytes)
    ensures Last(a + b, k) == if Last(b, k).Some? then Last(b, k) else Last(a, k)
  {
    if |b| == 0 {
      assert a + b == a;
    } else {
      assert (a + b)[..|a + b| - 1] == a + b[..|b| - 1];
      LastConcat(a, b[..|b| - 1], k);
    }
  }

  lemma {:induction false} GroupLast(route: Route, ws: seq<Write>, shard: Shard, k: bytes)
    ensures Last(Group(route, ws, shard), k) == if route(k) == shard then Last(ws, k) else None
  {
    if |ws| > 0 {
      var front, w := ws[..|ws| - 1], ws[|ws| - 1];
      GroupLast(route, front, shard, k);
      LastConcat(Group(route, front, shard), [w], k);
      assert Last([w], k) == if w.key == k then Some(w.value) else None by { assert [w][..0] == []; }
    }
  }

  lemma {:induction false} QueueLast(route: Route, ws: seq<Write>, order: seq<Shard>, k: bytes)
    requires forall i, j :: 0 <= i < j < |order| ==> order[i] != order[j]
    ensures Last(Queue(route, ws, order), k) == if route(k) in order then Last(ws, k) else None
  {
    if |order| > 0 {
      var front, o := order[..|order| - 1], order[|order| - 1];
      QueueLast(route, ws, front, k);
      GroupLast(route, ws, o, k);
      LastConcat(Queue(route, ws, front), Group(route, ws, o), k);
      assert order == front + [o];
    }
  }

  /** Whatever the order of the shards, the prepares leave each key's last write. */
  lemma QueueKeepsLast(route: Route, ws: seq<Write>, order: seq<Shard>, k: bytes)
    requires Enumerates(route, ws, order)
    ensures Last(Queue(route, ws, order), k) == Last(ws, k)
  {
    QueueLast(route, ws, order, k);
    LastKeys(ws, k);
    if k in Keys(ws) {
      var w :| w in ws && w.key == k;
      assert route(w.key) in Shards(route, ws);
    }
  }

  lemma {:induction false} GroupCount(route: Route, ws: seq<Write>, shard: Shard, w: Write)
    ensures multiset(Group(route, ws, shard))[w] == if route(w.key) == shard then multiset(ws)[w] else 0
  {
    if |ws| > 0 {
      GroupCount(route, ws[..|ws| - 1], shard, w);
      assert ws == ws[..|ws| - 1] + [ws[|ws| - 1]];
    }
  }

  lemma {:induction false} QueueCount(route: Route, ws: seq<Write>, order: seq<Shard>, w: Write)
    requires forall i, j :: 0 <= i < j < |order| ==> order[i] != order[j]
    ensures multiset(Queue(route, ws, order))[w] == if route(w.key) in order then multiset(ws)[w] else 0
  {
    if |order| > 0 {
      var front, o := order[..|order| - 1], order[|order| - 1];
      QueueCount(route, ws, front, w);
      GroupCount(route, ws, o, w);
      assert order == front + [o];
    }
  }

  /** Whatever the order of the shards, every write is prepared exactly once. */
  lemma QueuePermutes(route: Route, ws: seq<Write>, order: seq<Shard>)
    requires Enumerates(route, ws, order)
    ensures multiset(Queue(route, ws, order)) == multiset(ws)
  {
    forall w: Write ensures multiset(Queue(route, ws, order))[w] == multiset(ws)[w] {
      QueueCount(route, ws, order, w);
      if w in ws { assert route(w.key) in Shards(route, ws); }
    }
  }

  // ---------- what a shard holds of a key ----------

  function LockAt(route: Route, s: System, k: bytes): Option<Lock> {
    var store := StoreOf(s, route(k));
    if k in store.locks then Some(store.locks[k]) else None
  }

  function VersionAt(route: Route, s: System, k: bytes, ts: Ts): Option<bytes> {
    var store := StoreOf(s, route(k));
    if Version(k, ts) in store.versions then Some(store.versions[Version(k, ts)]) else None
  }

  function Stamp(x: Txn): Option<Ts> {
    match x.phase
    case Stamped(ts) => Some(ts)
    case Committed(ts) => Some(ts)
    case OneShotSent(ts) => Some(ts)
    case OneShotDone(ts) => Some(ts)
    case OneShotFailed(ts) => Some(ts)
    case _ => None
  }

  predicate IsOneShot(x: Txn) {
    x.phase.OneShotSent? || x.phase.OneShotDone? || x.phase.OneShotFailed?
  }

  /** The coordinator has recorded the transaction as aborted. */
  predicate IsAborted(x: Txn) {
    x.phase.Aborted? || x.phase.OneShotFailed?
  }

  /** The value the transaction has prepared and must have locked, or installed, at the key. */
  function Wants(x: Txn, k: bytes): Option<bytes> {
    match x.phase
    case Preparing(q, n) => if n <= |q| then Last(q[..n], k) else None
    case Stamped(_) => Last(x.writes, k)
    case Committed(_) => Last(x.writes, k)
    case _ => None
  }

  predicate MayHold(x: Txn, k: bytes, v: bytes) {
    Wants(x, k) == Some(v) || (x.phase.Aborted? && k in Keys(x.writes))
  }

  predicate Installs(x: Txn, k: bytes, ts: Ts, v: bytes) {
    (x.phase.Committed? || IsOneShot(x)) && Stamp(x) == Some(ts) && Last(x.writes, k) == Some(v)
  }

  // ---------- the invariant ----------

  ghost predicate TxnOk(x: Txn, clock: Ts) {
    && (Stamp(x).Some? ==> Stamp(x).value <= clock)
    && (x.phase.Preparing? ==> x.phase.acked <= |x.phase.queue|)
    && (x.phase.Preparing? ==> forall k :: Last(x.phase.queue, k) == Last(x.writes, k))
  }

  ghost predicate StampsDiffer(s: System, t: TxnId, u: TxnId) {
    t in s.txns && u in s.txns && t != u && Stamp(s.txns[t]).Some? ==> Stamp(s.txns[t]) != Stamp(s.txns[u])
  }

  ghost predicate LockOk(route: Route, s: System, k: bytes) {
    LockAt(route, s, k).Some? ==>
      var l := LockAt(route, s, k).value;
      l.txn in s.txns && MayHold(s.txns[l.txn], k, l.value)
  }

  ghost predicate VersionOk(route: Route, s: System, k: bytes, ts: Ts) {
    VersionAt(route, s, k, ts).Some? ==>
      exists t :: t in s.txns && Installs(s.txns[t], k, ts, VersionAt(route, s, k, ts).value)
  }

  ghost predicate Secured(route: Route, s: System, t: TxnId, k: bytes) {
    t in s.txns && Wants(s.txns[t], k).Some? ==>
      || LockAt(route, s, k) == Some(Lock(t, Wants(s.txns[t], k).value))
      || (s.txns[t].phase.Committed? && VersionAt(route, s, k, s.txns[t].phase.ts) == Wants(s.txns[t], k))
  }

  ghost predicate MsgOk(route: Route, s: System, m: Msg) {
    m.txn in s.txns &&
    var x := s.txns[m.txn];
    match m
    case CommitMsg(shard, k, _, ts) => shard == route(k) && x.phase == Committed(ts) && k in Keys(x.writes)
    case AbortMsg(shard, k, _) => shard == route(k) && IsAborted(x) && k in Keys(x.writes)
    case OneShotMsg(shard, ws, _, ts) =>
      ws == x.writes && IsOneShot(x) && Stamp(x) == Some(ts) && Shards(route, ws) == {shard}
  }

  /** A delivered commit or abort has released its lock for good. */
  ghost predicate DeliveredOk(route: Route, s: System, m: Msg) {
    && m in s.net
    && (!m.OneShotMsg? && LockAt(route, s, m.key).Some? ==> LockAt(route, s, m.key).value.txn != m.txn)
  }

  ghost predicate Inv(route: Route, s: System) {
    && (forall t :: t in s.txns ==> TxnOk(s.txns[t], s.clock))
    && (forall t, u :: StampsDiffer(s, t, u))
    && (forall k :: LockOk(route, s, k))
    && (forall k, ts: Ts :: VersionOk(route, s, k, ts))
    && (forall t, k :: Secured(route, s, t, k))
    && (forall m :: m in s.net ==> MsgOk(route, s, m))
    && (forall m :: m in s.delivered ==> DeliveredOk(route, s, m))
  }

  lemma InitInv(route: Route, s: System)
    requires Init(s)
    ensures Inv(route, s)
  {
  }

  // ---------- steps of the coordinator alone ----------

  /** A change of one transaction that neither gives up nor invents anything. */
  ghost predicate Evolves(x: Txn, x': Txn) {
    && (forall k, v :: MayHold(x, k, v) ==> MayHold(x', k, v))
    && (forall k, ts: Ts, v :: Installs(x, k, ts, v) ==> Installs(x', k, ts, v))
    && (forall k :: Wants(x', k).Some? ==> Wants(x, k) == Wants(x', k))
    && (x.phase.Committed? || x.phase.Aborted? || IsOneShot(x) ==> x'.writes == x.writes)
    && (x.phase.Committed? || x.phase.Aborted? || x.phase.OneShotFailed? ==> x' == x)
    && (IsOneShot(x) ==> IsOneShot(x') && Stamp(x') == Stamp(x))
  }

  /** s' differs from s in one transaction, the clock and newly sent messages. */
  ghost predicate Local(route: Route, s: System, s': System, t: TxnId) {
    && t in s'.txns && s'.txns == s.txns[t := s'.txns[t]]
    && s'.stores == s.stores && s'.delivered == s.delivered
    && s.clock <= s'.clock && s.net <= s'.net
    && (forall m :: m in s'.net && m !in s.net ==> MsgOk(route, s', m))
    && TxnOk(s'.txns[t], s'.clock)
    && (Stamp(s'.txns[t]).Some? ==>
          || (t in s.txns && Stamp(s.txns[t]) == Stamp(s'.txns[t]))
          || Stamp(s'.txns[t]).value > s.clock)
    && (if t in s.txns then Evolves(s.txns[t], s'.txns[t]) else s'.txns[t].phase.Open?)
  }

  lemma LocalKeepsInv(route: Route, s: System, s': System, t: TxnId)
    requires Inv(route, s) && Local(route, s, s', t)
    ensures Inv(route, s')
  {
    forall u, w ensures StampsDiffer(s', u, w) {
      assert StampsDiffer(s, u, w) && StampsDiffer(s, w, u);
    }
    forall k ensures LockOk(route, s', k) {
      assert LockOk(route, s, k);
    }
    forall k, ts: Ts ensures VersionOk(route, s', k, ts) {
      assert VersionOk(route, s, k, ts);
      if VersionAt(route, s, k, ts).Some? {
        var u :| u in s.txns && Installs(s.txns[u], k, ts, VersionAt(route, s, k, ts).value);
        assert Installs(s'.txns[u], k, ts, VersionAt(route, s', k, ts).value);
      }
    }
    forall u, k ensures Secured(route, s', u, k) {
      assert Secured(route, s, u, k);
    }
    forall m | m in s'.net ensures MsgOk(route, s', m) {
      if m in s.net { assert MsgOk(route, s, m); }
    }
    forall m | m in s'.delivered ensures DeliveredOk(route, s', m) {
      assert DeliveredOk(route, s, m);
    }
  }

  lemma TickKeepsInv(route: Route, s: System, ts: Ts)
    requires Inv(route, s) && ts > s.clock
    ensures Inv(route, s.(clock := ts))
  {
    var s' := s.(clock := ts);
    forall t, u ensures StampsDiffer(s', t, u) { assert StampsDiffer(s, t, u); }
    forall k ensures LockOk(route, s', k) { assert LockOk(route, s, k); }
    forall k, u: Ts ensures VersionOk(route, s', k, u) { assert VersionOk(route, s, k, u); }
    forall t, k ensures Secured(route, s', t, k) { assert Secured(route, s, t, k); }
    forall m | m in s'.net ensures MsgOk(route, s', m) { assert MsgOk(route, s, m); }
    forall m | m in s'.delivered ensures DeliveredOk(route, s', m) { assert DeliveredOk(route, s, m); }
  }

  /** A prefix of the queue writes only keys of the transaction. */
  lemma {:induction false} PrefixLastInKeys(q: seq<Write>, n: nat, k: bytes)
    requires n <= |q| && Last(q[..n], k).Some?
    ensures Last(q, k).Some?
  {
    LastKeys(q[..n], k);
    LastKeys(q, k);
    var w :| w in q[..n] && w.key == k;
    assert w in q;
  }

  /** Giving up from an open or a preparing transaction. */
  lemma AbortKeepsInv(route: Route, s: System, t: TxnId)
    requires Inv(route, s) && t in s.txns && (s.txns[t].phase.Open? || s.txns[t].phase.Preparing?)
    ensures Inv(route, DoAbort(route, s, t, Aborted))
  {
    var s' := DoAbort(route, s, t, Aborted);
    var x, x' := s.txns[t], s'.txns[t];
    forall k, v | MayHold(x, k, v) ensures MayHold(x', k, v) {
      PrefixLastInKeys(x.phase.queue, x.phase.acked, k);
      LastKeys(x.writes, k);
    }
    assert Evolves(x, x');
    LocalKeepsInv(route, s, s', t);
  }

  lemma CoordinatorKeepsInv(route: Route, s: System, step: Step)
    requires Inv(route, s) && Enabled(route, s, step)
    requires || step.BeginStep? || step.AddWriteStep? || step.EmptyCommitStep?
             || step.StartStep? || step.StampStep? || step.DecideStep?
    ensures Inv(route, Do(route, s, step))
  {
    var s', t := Do(route, s, step), step.txn;
    if step.StartStep? {
      forall k ensures Last(s'.txns[t].phase.queue, k) == Last(s'.txns[t].writes, k) {
        QueueKeepsLast(route, s.txns[t].writes, step.order, k);
      }
      assert s'.txns[t].phase.queue[..0] == [];
    }
    if step.StampStep? {
      var q := s.txns[t].phase.queue;
      assert q[..|q|] == q;
    }
    LocalKeepsInv(route, s, s', t);
  }

  lemma OneShotKeepsInv(route: Route, s: System, step: Step)
    requires Inv(route, s) && Enabled(route, s, step)
    requires step.OneShotStep? || step.OneShotOkStep? || step.OneShotFailStep?
    ensures Inv(route, Do(route, s, step))
  {
    LocalKeepsInv(route, s, Do(route, s, step), step.txn);
  }

  // ---------- steps at a shard ----------

  lemma LastNext(q: seq<Write>, n: nat, k: bytes)
    requires n < |q|
    ensures Last(q[..n + 1], k) == if q[n].key == k then Some(q[n].value) else Last(q[..n], k)
  {
    assert q[..n + 1][..n] == q[..n];
  }

  lemma PrepareKeepsSecured(route: Route, s: System, t: TxnId, u: TxnId, k: bytes)
    requires Inv(route, s) && Enabled(route, s, PrepareStep(t))
    ensures Secured(route, Do(route, s, PrepareStep(t)), u, k)
  {
    assert Secured(route, s, u, k);
    if u == t { LastNext(s.txns[t].phase.queue, s.txns[t].phase.acked, k); }
  }

  lemma PrepareKeepsInv(route: Route, s: System, t: TxnId)
    requires Inv(route, s) && Enabled(route, s, PrepareStep(t))
    ensures Inv(route, Do(route, s, PrepareStep(t)))
  {
    var s' := Do(route, s, PrepareStep(t));
    var w, x, x' := NextWrite(s, t), s.txns[t], s'.txns[t];
    forall k ensures Wants(x', k) == if k == w.key then Some(w.value) else Wants(x, k) {
      LastNext(x.phase.queue, x.phase.acked, k);
    }
    assert LockAt(route, s', w.key) == Some(Lock(t, w.value));
    forall u, v ensures StampsDiffer(s', u, v) { assert StampsDiffer(s, u, v); }
    forall k ensures LockOk(route, s', k) { assert LockOk(route, s, k); }
    forall k, ts: Ts ensures VersionOk(route, s', k, ts) {
      assert VersionOk(route, s, k, ts);
      assert VersionAt(route, s', k, ts) == VersionAt(route, s, k, ts);
      if VersionAt(route, s, k, ts).Some? {
        var u :| u in s.txns && Installs(s.txns[u], k, ts, VersionAt(route, s, k, ts).value);
        assert u in s'.txns && Installs(s'.txns[u], k, ts, VersionAt(route, s', k, ts).value);
      }
    }
    forall u, k ensures Secured(route, s', u, k) { PrepareKeepsSecured(route, s, t, u, k); }
    forall m | m in s'.net ensures MsgOk(route, s', m) { assert MsgOk(route, s, m); }
    forall m | m in s'.delivered ensures DeliveredOk(route, s', m) {
      assert DeliveredOk(route, s, m) && MsgOk(route, s, m);
    }
  }

  /** What a delivery may do to a key: install a rightful version and release its holder's lock. */
  ghost predicate Delivery(route: Route, s: System, s': System, m: Msg, k: bytes)
    requires m.txn in s.txns
  {
    && (LockAt(route, s', k) == LockAt(route, s, k)
        || (LockAt(route, s', k) == None && LockAt(route, s, k).Some? && LockAt(route, s, k).value.txn == m.txn
            && (m.CommitMsg? || s.txns[m.txn].phase.Aborted?)))
    && (forall ts: Ts ::
          || VersionAt(route, s', k, ts) == VersionAt(route, s, k, ts)
          || (VersionAt(route, s', k, ts).Some? && Installs(s.txns[m.txn], k, ts, VersionAt(route, s', k, ts).value)))
    && (LockAt(route, s', k) != LockAt(route, s, k) && m.CommitMsg? ==>
          VersionAt(route, s', k, m.ts) == Some(LockAt(route, s, k).value.value))
    && (!m.OneShotMsg? && k == m.key ==> LockAt(route, s', k).Some? ==> LockAt(route, s', k).value.txn != m.txn)
  }

  lemma CommitDelivery(route: Route, s: System, m: Msg, k: bytes)
    requires Inv(route, s) && m in s.net && MsgOk(route, s, m) && m.CommitMsg?
    ensures Delivery(route, s, Receive(s, m), m, k)
  {
    assert LockOk(route, s, m.key);
  }

  lemma AbortDelivery(route: Route, s: System, m: Msg, k: bytes)
    requires Inv(route, s) && m in s.net && MsgOk(route, s, m) && m.AbortMsg?
    ensures Delivery(route, s, Receive(s, m), m, k)
  {
    assert LockOk(route, s, m.key);
  }

  lemma OneShotDelivery(route: Route, s: System, m: Msg, k: bytes)
    requires Inv(route, s) && m in s.net && MsgOk(route, s, m) && m.OneShotMsg?
    ensures Delivery(route, s, Receive(s, m), m, k)
  {
    var s' := Receive(s, m);
    assert LockOk(route, s, k);
    var store := StoreOf(s, m.shard);
    if route(k) == m.shard && !Blocked(store, m.writes, m.txn) {
      if k in Keys(m.writes) {
        var w :| w in m.writes && w.key == k;
        assert !LockedByOther(store, w.key, m.txn);
        InstallLast(store.versions, m.writes, m.ts, k);
      }
      forall ts: Ts | ts != m.ts || k !in Keys(m.writes)
        ensures VersionAt(route, s', k, ts) == VersionAt(route, s, k, ts) {
        InstallOther(store.versions, m.writes, m.ts, Version(k, ts));
      }
    }
  }

  lemma DeliverKeepsInv(route: Route, s: System, m: Msg)
    requires Inv(route, s) && m in s.net
    ensures Inv(route, Receive(s, m))
  {
    var s' := Receive(s, m);
    assert MsgOk(route, s, m);
    forall k ensures Delivery(route, s, s', m, k) {
      match m
      case CommitMsg(_, _, _, _) => CommitDelivery(route, s, m, k);
      case AbortMsg(_, _, _) => AbortDelivery(route, s, m, k);
      case OneShotMsg(_, _, _, _) => OneShotDelivery(route, s, m, k);
    }
    forall t, u ensures StampsDiffer(s', t, u) { assert StampsDiffer(s, t, u); }
    forall k ensures LockOk(route, s', k) { assert LockOk(route, s, k) && Delivery(route, s, s', m, k); }
    forall k, ts: Ts ensures VersionOk(route, s', k, ts) {
      assert VersionOk(route, s, k, ts) && Delivery(route, s, s', m, k);
    }
    forall t, k ensures Secured(route, s', t, k) {
      DeliverKeepsSecured(route, s, m, t, k);
    }
    forall n | n in s'.net ensures MsgOk(route, s', n) { assert MsgOk(route, s, n); }
    forall n | n in s'.delivered ensures DeliveredOk(route, s', n) {
      if n in s.delivered { assert DeliveredOk(route, s, n); }
      if !n.OneShotMsg? { assert Delivery(route, s, s', m, n.key); }
    }
  }

  lemma DeliverKeepsSecured(route: Route, s: System, m: Msg, t: TxnId, k: bytes)
    requires Inv(route, s) && m in s.net && MsgOk(route, s, m) && Delivery(route, s, Receive(s, m), m, k)
    ensures Secured(route, Receive(s, m), t, k)
  {
    var s' := Receive(s, m);
    assert Secured(route, s, t, k) && StampsDiffer(s, t, m.txn) && LockOk(route, s, k);
    if t in s.txns && Wants(s.txns[t], k).Some? {
      var v := Wants(s.txns[t], k);
      if LockAt(route, s, k) == Some(Lock(t, v.value)) {
        assert LockAt(route, s', k) == LockAt(route, s, k) || m.txn == t;
      } else {
        var ts := s.txns[t].phase.ts;
        assert VersionAt(route, s', k, ts) == VersionAt(route, s, k, ts) == v || m.txn == t;
      }
    }
  }

  /** Every step keeps the invariant. */
  lemma StepKeepsInv(route: Route, s: System, step: Step)
    requires Inv(route, s) && Enabled(route, s, step)
    ensures Inv(route, Do(route, s, step))
  {
    match step
    case TickStep(ts) => TickKeepsInv(route, s, ts);
    case AbortStep(t) => AbortKeepsInv(route, s, t);
    case PrepareStep(t) => PrepareKeepsInv(route, s, t);
    case PrepareFailStep(t, applied) =>
      if applied {
        var s1 := Do(route, s, PrepareStep(t));
        PrepareKeepsInv(route, s, t);
        AbortKeepsInv(route, s1, t);
        assert DoAbort(route, s1, t, Aborted) == Do(route, s, step) by {
          assert s1.txns[t := s1.txns[t].(phase := Aborted)] == s.txns[t := s.txns[t].(phase := Aborted)];
        }
      } else {
        AbortKeepsInv(route, s, t);
      }
    case DeliverStep(m) => DeliverKeepsInv(route, s, m);
    case OneShotStep(_, _, _) => OneShotKeepsInv(route, s, step);
    case OneShotOkStep(_) => OneShotKeepsInv(route, s, step);
    case OneShotFailStep(_) => OneShotKeepsInv(route, s, step);
    case _ => CoordinatorKeepsInv(route, s, step);
  }

  lemma StepAt(route: Route, run: seq<System>, j: nat) returns (step: Step)
    requires IsRun(route, run) && 0 < j < |run|
    ensures Enabled(route, run[j - 1], step) && run[j] == Do(route, run[j - 1], step)
  {
    assert Next(route, run[j - 1], run[j]);
    step :| Enabled(route, run[j - 1], step) && run[j] == Do(route, run[j - 1], step);
  }

  // ---------- what the coordinator's decisions leave behind ----------

  /** A one-shot transaction writes to one shard; the messages of a decision have been sent. */
  ghost predicate Recorded(route: Route, s: System, t: TxnId) {
    t in s.txns ==>
      var x := s.txns[t];
      && (IsOneShot(x) ==> |Shards(route, x.writes)| == 1)
      && (x.phase.Committed? ==> CommitMsgs(route, x.writes, t, x.phase.ts) <= s.net)
      && (IsAborted(x) ==> AbortMsgs(route, x.writes, t) <= s.net)
  }

  lemma StepKeepsRecorded(route: Route, s: System, step: Step, t: TxnId)
    requires Recorded(route, s, t) && Enabled(route, s, step)
    ensures Recorded(route, Do(route, s, step), t)
  {
  }

  /** The invariant and the records together. */
  ghost predicate Good(route: Route, s: System) {
    Inv(route, s) && forall t :: Recorded(route, s, t)
  }

  lemma StepKeepsGood(route: Route, s: System, step: Step)
    requires Good(route, s) && Enabled(route, s, step)
    ensures Good(route, Do(route, s, step))
  {
    StepKeepsInv(route, s, step);
    forall t ensures Recorded(route, Do(route, s, step), t) { StepKeepsRecorded(route, s, step, t); }
  }

  /** The invariant and the records hold in every state of every run. */
  lemma {:induction false} RunInv(route: Route, run: seq<System>, i: nat)
    requires IsRun(route, run) && i < |run|
    ensures Good(route, run[i])
  {
    if i == 0 {
      InitInv(route, run[0]);
    } else {
      RunInv(route, run, i - 1);
      var step := StepAt(route, run, i);
      StepKeepsGood(route, run[i - 1], step);
    }
  }
}
