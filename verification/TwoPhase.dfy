/** Distributed transactions as a step system: one coordinator, the shards' stores, and a network on which
    commit, abort and one-shot messages are reordered, lost and duplicated.

    Assumptions built into the steps: a prepare call has no effect after it returned, and an acknowledged
    one took the lock; transaction ids are fresh; each transaction gets one Commit or Abort call and no
    write afterwards; the clock is strictly increasing; routing is fixed. */
module TwoPhase {
  import opened Bytes
  import opened Mvcc
  import opened Store

  type Shard = nat
  type Route = bytes -> Shard

  datatype Phase =
    | Open
    | Preparing(queue: seq<Write>, acked: nat)
    | Stamped(ts: Ts)
    | Committed(ts: Ts)
    | Aborted
    | Empty
    | OneShotSent(ts: Ts)
    | OneShotDone(ts: Ts)
    | OneShotFailed(ts: Ts)

  datatype Txn = Txn(writes: seq<Write>, phase: Phase)

  datatype Msg =
    | CommitMsg(shard: Shard, key: bytes, txn: TxnId, ts: Ts)
    | AbortMsg(shard: Shard, key: bytes, txn: TxnId)
    | OneShotMsg(shard: Shard, writes: seq<Write>, txn: TxnId, ts: Ts)

  /** net holds every message ever sent: delivering any of them, at any time and any number of times,
      is loss, reordering and duplication in one. */
  datatype System = System(
    clock: Ts,
    txns: map<TxnId, Txn>,
    stores: map<Shard, Store>,
    net: set<Msg>,
    delivered: set<Msg>)

  predicate Init(s: System) {
    s.txns == map[] && s.stores == map[] && s.net == {} && s.delivered == {}
  }

  function StoreOf(s: System, shard: Shard): Store {
    if shard in s.stores then s.stores[shard] else EMPTY
  }

  // ---------- grouping by shard ----------

  function Group(route: Route, ws: seq<Write>, shard: Shard): seq<Write> {
    if |ws| == 0 then []
    else
      var front, w := Group(route, ws[..|ws| - 1], shard), ws[|ws| - 1];
      if route(w.key) == shard then front + [w] else front
  }

  function Shards(route: Route, ws: seq<Write>): set<Shard> {
    set w | w in ws :: route(w.key)
  }

  function ShardSet(order: seq<Shard>): set<Shard> {
    set x | x in order
  }

  /** A traversal of the grouping: every shard once. */
  predicate Enumerates(route: Route, ws: seq<Write>, order: seq<Shard>) {
    && (forall i, j :: 0 <= i < j < |order| ==> order[i] != order[j])
    && ShardSet(order) == Shards(route, ws)
  }

  /** The prepares in the order they are sent: shard by shard, each shard's in write order. */
  function Queue(route: Route, ws: seq<Write>, order: seq<Shard>): seq<Write> {
    if |order| == 0 then []
    else Queue(route, ws, order[..|order| - 1]) + Group(route, ws, order[|order| - 1])
  }

  // ---------- steps ----------

  function CommitMsgs(route: Route, ws: seq<Write>, txn: TxnId, ts: Ts): set<Msg> {
    set w | w in ws :: CommitMsg(route(w.key), w.key, txn, ts)
  }

  function AbortMsgs(route: Route, ws: seq<Write>, txn: TxnId): set<Msg> {
    set w | w in ws :: AbortMsg(route(w.key), w.key, txn)
  }

  datatype Step =
    | BeginStep(txn: TxnId)
    | AddWriteStep(txn: TxnId, key: bytes, value: bytes)
    | EmptyCommitStep(txn: TxnId)
    | StartStep(txn: TxnId, order: seq<Shard>)
    | OneShotStep(txn: TxnId, shard: Shard, ts: Ts)
    | OneShotOkStep(txn: TxnId)
    | OneShotFailStep(txn: TxnId)
    | PrepareStep(txn: TxnId)
    | PrepareFailStep(txn: TxnId, applied: bool)
    | StampStep(txn: TxnId, ts: Ts)
    | DecideStep(txn: TxnId)
    | AbortStep(txn: TxnId)
    | DeliverStep(msg: Msg)
    | TickStep(ts: Ts)

  /** A prepare is outstanding. */
  predicate Pending(s: System, txn: TxnId) {
    txn in s.txns && s.txns[txn].phase.Preparing? && s.txns[txn].phase.acked < |s.txns[txn].phase.queue|
  }

  /** The write whose prepare is next. */
  function NextWrite(s: System, txn: TxnId): Write
    requires Pending(s, txn)
  {
    s.txns[txn].phase.queue[s.txns[txn].phase.acked]
  }

  predicate NextFree(route: Route, s: System, txn: TxnId)
    requires Pending(s, txn)
  {
    var w := NextWrite(s, txn);
    !LockedByOther(StoreOf(s, route(w.key)), w.key, txn)
  }

  predicate Enabled(route: Route, s: System, step: Step) {
    match step
    case BeginStep(t) => t !in s.txns
    case AddWriteStep(t, _, _) => t in s.txns && s.txns[t].phase.Open?
    case EmptyCommitStep(t) => t in s.txns && s.txns[t].phase.Open? && |s.txns[t].writes| == 0
    case StartStep(t, order) =>
      t in s.txns && s.txns[t].phase.Open? && |order| > 1 && Enumerates(route, s.txns[t].writes, order)
    case OneShotStep(t, shard, ts) =>
      t in s.txns && s.txns[t].phase.Open? && Shards(route, s.txns[t].writes) == {shard} && ts > s.clock
    case OneShotOkStep(t) => t in s.txns && s.txns[t].phase.OneShotSent?
    case OneShotFailStep(t) => t in s.txns && s.txns[t].phase.OneShotSent?
    case PrepareStep(t) => Pending(s, t) && NextFree(route, s, t)
    case PrepareFailStep(t, applied) => Pending(s, t) && (applied ==> NextFree(route, s, t))
    case StampStep(t, ts) =>
      && t in s.txns && s.txns[t].phase.Preparing? && s.txns[t].phase.acked == |s.txns[t].phase.queue|
      && ts > s.clock
    case DecideStep(t) => t in s.txns && s.txns[t].phase.Stamped?
    case AbortStep(t) => t in s.txns && s.txns[t].phase.Open?
    case DeliverStep(m) => m in s.net
    case TickStep(ts) => ts > s.clock
  }

  function SetPhase(s: System, txn: TxnId, phase: Phase): System
    requires txn in s.txns
  {
    s.(txns := s.txns[txn := s.txns[txn].(phase := phase)])
  }

  function PutStore(s: System, shard: Shard, store: Store): System {
    s.(stores := s.stores[shard := store])
  }

  /** The next prepare takes effect at its shard. */
  function ApplyPrepare(route: Route, s: System, txn: TxnId): System
    requires Pending(s, txn)
  {
    var w := NextWrite(s, txn);
    PutStore(s, route(w.key), Prepare(StoreOf(s, route(w.key)), w.key, w.value, txn))
  }

  /** Coordinator.Abort: the state changes and an abort goes out for every write. */
  function DoAbort(route: Route, s: System, txn: TxnId, phase: Phase): System
    requires txn in s.txns
  {
    SetPhase(s, txn, phase).(net := s.net + AbortMsgs(route, s.txns[txn].writes, txn))
  }

  function Receive(s: System, m: Msg): System {
    var store := StoreOf(s, m.shard);
    var store' := match m
      case CommitMsg(_, key, txn, ts) => Commit(store, key, txn, ts)
      case AbortMsg(_, key, txn) => Abort(store, key, txn)
      case OneShotMsg(_, ws, txn, ts) => OnePhaseCommit(store, ws, txn, ts);
    PutStore(s, m.shard, store').(delivered := s.delivered + {m})
  }

  function Do(route: Route, s: System, step: Step): System
    requires Enabled(route, s, step)
  {
    match step
    case BeginStep(t) => s.(txns := s.txns[t := Txn([], Open)])
    case AddWriteStep(t, key, value) =>
      s.(txns := s.txns[t := s.txns[t].(writes := s.txns[t].writes + [Write(key, value)])])
    case EmptyCommitStep(t) => SetPhase(s, t, Empty)
    case StartStep(t, order) => SetPhase(s, t, Preparing(Queue(route, s.txns[t].writes, order), 0))
    case OneShotStep(t, shard, ts) =>
      SetPhase(s, t, OneShotSent(ts)).(clock := ts, net := s.net + {OneShotMsg(shard, s.txns[t].writes, t, ts)})
    case OneShotOkStep(t) => SetPhase(s, t, OneShotDone(s.txns[t].phase.ts))
    case OneShotFailStep(t) => DoAbort(route, s, t, OneShotFailed(s.txns[t].phase.ts))
    case PrepareStep(t) =>
      SetPhase(ApplyPrepare(route, s, t), t, Preparing(s.txns[t].phase.queue, s.txns[t].phase.acked + 1))
    case PrepareFailStep(t, applied) =>
      DoAbort(route, if applied then ApplyPrepare(route, s, t) else s, t, Aborted)
    case StampStep(t, ts) => SetPhase(s, t, Stamped(ts)).(clock := ts)
    case DecideStep(t) =>
      var ts := s.txns[t].phase.ts;
      SetPhase(s, t, Committed(ts)).(net := s.net + CommitMsgs(route, s.txns[t].writes, t, ts))
    case AbortStep(t) => DoAbort(route, s, t, Aborted)
    case DeliverStep(m) => Receive(s, m)
    case TickStep(ts) => s.(clock := ts)
  }

  ghost predicate Next(route: Route, s: System, s': System) {
    exists step :: Enabled(route, s, step) && s' == Do(route, s, step)
  }

  ghost predicate IsRun(route: Route, run: seq<System>) {
    && |run| > 0 && Init(run[0])
    && forall i, j :: 0 <= i < |run| && j == i + 1 < |run| ==> Next(route, run[i], run[j])
  }
}
