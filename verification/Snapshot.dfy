/** What clients of the two-phase commit system may rely on, over whole runs. */
module Snapshot {
  import opened Bytes
  import opened Mvcc
  import opened Store
  import Tree
  import SeekRead
  import M = MemoryStore
  import Gc
  import opened TwoPhase
  import opened TwoPhaseInvariant

  // ---------- decisions ----------

  ghost predicate HoldsAt(route: Route, s: System, t: TxnId, k: bytes) {
    LockAt(route, s, k).Some? && LockAt(route, s, k).value.txn == t
  }

  /** The transaction took this timestamp. */
  ghost predicate Took(s: System, t: TxnId, ts: Ts) {
    t in s.txns && Stamp(s.txns[t]) == Some(ts)
  }

  /** In every state of every run, a version is the last write to its key of exactly one transaction, the one
      that took its timestamp. That transaction is decided to commit, or it writes to one shard only: a
      one-shot transaction installs before its outcome is known, and even when it is recorded as aborted. */
  lemma VersionProvenance(route: Route, run: seq<System>, i: nat, k: bytes, ts: Ts)
    requires IsRun(route, run) && i < |run| && VersionAt(route, run[i], k, ts).Some?
    ensures exists t :: t in run[i].txns && Installs(run[i].txns[t], k, ts, VersionAt(route, run[i], k, ts).value)
    ensures forall t :: Took(run[i], t, ts) ==>
                          run[i].txns[t].phase.Committed? || |Shards(route, run[i].txns[t].writes)| == 1
    ensures forall t, u :: Took(run[i], t, ts) && Took(run[i], u, ts) ==> t == u
  {
    RunInv(route, run, i);
    var s := run[i];
    assert VersionOk(route, s, k, ts);
    var o :| o in s.txns && Installs(s.txns[o], k, ts, VersionAt(route, s, k, ts).value);
    assert Recorded(route, s, o);
    forall t | Took(s, t, ts) ensures t == o { assert StampsDiffer(s, t, o); }
  }

  /** Once commit is decided, every written key is locked with the value to install, or has it installed at
      the transaction's one timestamp. */
  lemma CommittedLands(route: Route, run: seq<System>, i: nat, t: TxnId, k: bytes)
    requires IsRun(route, run) && i < |run|
    requires t in run[i].txns && run[i].txns[t].phase.Committed? && k in Keys(run[i].txns[t].writes)
    ensures var v, ts := Last(run[i].txns[t].writes, k), run[i].txns[t].phase.ts;
            && v.Some?
            && (LockAt(route, run[i], k) == Some(Lock(t, v.value)) || VersionAt(route, run[i], k, ts) == v)
  {
    RunInv(route, run, i);
    LastKeys(run[i].txns[t].writes, k);
    assert Secured(route, run[i], t, k);
  }

  /** Once each of its commits was delivered at least once, a committed transaction is completely installed
      and holds no lock. */
  lemma CommittedCompletes(route: Route, run: seq<System>, i: nat, t: TxnId, k: bytes)
    requires IsRun(route, run) && i < |run|
    requires t in run[i].txns && run[i].txns[t].phase.Committed?
    requires CommitMsgs(route, run[i].txns[t].writes, t, run[i].txns[t].phase.ts) <= run[i].delivered
    ensures !HoldsAt(route, run[i], t, k)
    ensures k in Keys(run[i].txns[t].writes) ==>
              VersionAt(route, run[i], k, run[i].txns[t].phase.ts) == Last(run[i].txns[t].writes, k)
  {
    var s := run[i];
    var ws, ts := s.txns[t].writes, s.txns[t].phase.ts;
    RunInv(route, run, i);
    LastKeys(ws, k);
    assert LockOk(route, s, k) && Secured(route, s, t, k);
    if k in Keys(ws) {
      var w :| w in ws && w.key == k;
      assert CommitMsg(route(w.key), w.key, t, ts) in CommitMsgs(route, ws, t, ts);
      assert DeliveredOk(route, s, CommitMsg(route(k), k, t, ts));
    }
  }

  /** Once each of its aborts was delivered at least once, an aborted transaction holds no lock. A failed
      one-shot never held one. */
  lemma AbortedReleases(route: Route, run: seq<System>, i: nat, t: TxnId, k: bytes)
    requires IsRun(route, run) && i < |run|
    requires t in run[i].txns && IsAborted(run[i].txns[t])
    requires AbortMsgs(route, run[i].txns[t].writes, t) <= run[i].delivered || IsOneShot(run[i].txns[t])
    ensures !HoldsAt(route, run[i], t, k)
  {
    var s := run[i];
    var ws := s.txns[t].writes;
    RunInv(route, run, i);
    assert LockOk(route, s, k);
    if k in Keys(ws) && s.txns[t].phase.Aborted? {
      var w :| w in ws && w.key == k;
      assert AbortMsg(route(w.key), w.key, t) in AbortMsgs(route, ws, t);
      assert DeliveredOk(route, s, AbortMsg(route(k), k, t));
    }
  }

  // ---------- time ----------

  ghost predicate SameDecision(x: Txn, y: Txn) {
    Stamp(x) == Stamp(y) && x.writes == y.writes && (IsOneShot(x) <==> IsOneShot(y))
  }

  ghost predicate Taken(s: System, t: TxnId) {
    t in s.txns && Stamp(s.txns[t]).Some?
  }

  /** The clock does not go back, a timestamp once taken is kept, one taken since is later than the clock was,
      and a decision is final. */
  ghost predicate Later(s: System, s': System, t: TxnId) {
    && s.clock <= s'.clock
    && (t in s.txns ==> t in s'.txns)
    && (Taken(s, t) ==> SameDecision(s.txns[t], s'.txns[t]))
    && (Taken(s', t) && !Taken(s, t) ==> Stamp(s'.txns[t]).value > s.clock)
    && (t in s.txns && (s.txns[t].phase.Committed? || s.txns[t].phase.Aborted?) ==> s'.txns[t] == s.txns[t])
  }

  lemma StepIsLater(route: Route, s: System, step: Step, t: TxnId)
    requires Enabled(route, s, step)
    ensures Later(s, Do(route, s, step), t)
  {
  }

  /** Every later state of a run is later in this sense. */
  lemma {:induction false} RunIsLater(route: Route, run: seq<System>, i: nat, j: nat, t: TxnId)
    requires IsRun(route, run) && i <= j < |run|
    ensures Later(run[i], run[j], t)
    decreases j
  {
    if i < j {
      RunIsLater(route, run, i, j - 1, t);
      var step := StepAt(route, run, j);
      StepIsLater(route, run[j - 1], step, t);
      LaterTransitive(run[i], run[j - 1], run[j], t);
    }
  }

  lemma LaterTransitive(a: System, b: System, c: System, t: TxnId)
    requires Later(a, b, t) && Later(b, c, t)
    ensures Later(a, c, t)
  {
  }

  // ---------- snapshot atomicity ----------

  ghost function VersionsOf(route: Route, s: System, k: bytes): map<Version, bytes> {
    StoreOf(s, route(k)).versions
  }

  /** What a read at the key's shard answers. */
  ghost function Answer(route: Route, s: System, k: bytes, readTs: Ts): ReadResult {
    GetTxn(StoreOf(s, route(k)), k, readTs)
  }

  /** A read is refused, naming the holder, if and only if the key is locked. */
  lemma RefusedExactly(route: Route, s: System, k: bytes, readTs: Ts)
    ensures Answer(route, s, k, readTs).Locked? <==> LockAt(route, s, k).Some?
    ensures LockAt(route, s, k).Some? ==> Answer(route, s, k, readTs) == Locked(LockAt(route, s, k).value.txn)
    ensures LockAt(route, s, k) == None ==>
              Answer(route, s, k, readTs) == Value(ReadAt(VersionsOf(route, s, k), k, readTs))
  {
  }

  /** The answer of a read at readTs is this transaction's write or a newer one. */
  ghost predicate Reflects(route: Route, s: System, k: bytes, readTs: Ts, ts: Ts) {
    var newest := NewestTs(VersionsOf(route, s, k), k, readTs);
    newest.Some? && newest.value >= ts
  }

  /** An unblocked read not ahead of the clock reflects a two-phase transaction's write to the key exactly
      when the transaction's timestamp is not after the read's. */
  lemma ReadReflects(route: Route, run: seq<System>, i: nat, t: TxnId, k: bytes, readTs: Ts)
    requires IsRun(route, run) && i < |run| && readTs <= run[i].clock
    requires Answer(route, run[i], k, readTs).Value?
    requires var end := run[|run| - 1];
             t in end.txns && Stamp(end.txns[t]).Some? && !IsOneShot(end.txns[t]) && Last(end.txns[t].writes, k).Some?
    ensures var x := run[|run| - 1].txns[t];
            var ts := Stamp(x).value;
            && (Reflects(route, run[i], k, readTs, ts) <==> ts <= readTs)
            && (ts <= readTs ==> VersionAt(route, run[i], k, ts) == Last(x.writes, k))
            && (NewestTs(VersionsOf(route, run[i], k), k, readTs) == Some(ts) ==>
                  Answer(route, run[i], k, readTs) == Value(Last(x.writes, k)))
  {
    var s := run[i];
    var x := run[|run| - 1].txns[t];
    var ts := Stamp(x).value;
    var m := VersionsOf(route, s, k);
    NewestSpec(m, k, readTs);
    RefusedExactly(route, s, k, readTs);
    if ts <= readTs {
      RunIsLater(route, run, i, |run| - 1, t);
      RunInv(route, run, i);
      assert Secured(route, s, t, k);
      assert Version(k, ts) in m;
    }
  }

  /** Two unblocked reads with the same timestamp, at whatever moments of the run, each not ahead of the
      clock: they reflect all or none of any two-phase transaction's writes. A transaction without a
      timestamp is reflected by no read, since no version stems from it. */
  lemma SnapshotAtomicity(route: Route, run: seq<System>, i: nat, j: nat, t: TxnId, k1: bytes, k2: bytes, readTs: Ts)
    requires IsRun(route, run) && i < |run| && j < |run|
    requires readTs <= run[i].clock && readTs <= run[j].clock
    requires Answer(route, run[i], k1, readTs).Value? && Answer(route, run[j], k2, readTs).Value?
    requires var end := run[|run| - 1];
             && t in end.txns && Stamp(end.txns[t]).Some? && !IsOneShot(end.txns[t])
             && Last(end.txns[t].writes, k1).Some? && Last(end.txns[t].writes, k2).Some?
    ensures var ts := Stamp(run[|run| - 1].txns[t]).value;
            Reflects(route, run[i], k1, readTs, ts) <==> Reflects(route, run[j], k2, readTs, ts)
    ensures var x := run[|run| - 1].txns[t];
            var ts := Stamp(x).value;
            Reflects(route, run[i], k1, readTs, ts) ==>
              && VersionAt(route, run[i], k1, ts) == Last(x.writes, k1)
              && VersionAt(route, run[j], k2, ts) == Last(x.writes, k2)
  {
    ReadReflects(route, run, i, t, k1, readTs);
    ReadReflects(route, run, j, t, k2, readTs);
  }

  // ---------- the same for the engine's own read ----------

  /** A tree that holds the shard's versions, in which nothing intercepts the read's seek. */
  ghost predicate Serves(route: Route, s: System, t: Tree.Tree, k: bytes, readTs: Ts) {
    && Tree.WellFormed(t) && Tree.View(t) == VersionsOf(route, s, k)
    && !SeekRead.Interloper(Tree.View(t), k, readTs)
  }

  /** The item the seek stops at is of the key and not older than ts. */
  ghost predicate SeekReflects(t: Tree.Tree, k: bytes, readTs: Ts, ts: Ts) {
    var n := Tree.Seek(t, Encode(k, readTs));
    n < |t| && SeekRead.UserKey(t[n]) == k && SeekRead.TsOf(t[n]) >= ts
  }

  lemma SeekReflectsExactly(route: Route, s: System, t: Tree.Tree, k: bytes, readTs: Ts, ts: Ts)
    requires Serves(route, s, t, k, readTs)
    ensures SeekReflects(t, k, readTs, ts) <==> Reflects(route, s, k, readTs, ts)
    ensures M.SeekGet(t, StoreOf(s, route(k)).locks, k, readTs) == Answer(route, s, k, readTs)
  {
    SeekRead.SeekReadExact(t, k, readTs);
    if SeekRead.MvccGet(t, k, readTs).Some? { SeekRead.SeekHit(t, k, readTs); }
  }

  /** The engines' answers to two such reads are the specified ones, and their seeks reflect all or none of any
      two-phase transaction's writes. */
  lemma EngineAtomicity(route: Route, run: seq<System>, i: nat, j: nat, t: TxnId, k1: bytes, k2: bytes, readTs: Ts,
                        t1: Tree.Tree, t2: Tree.Tree)
    requires IsRun(route, run) && i < |run| && j < |run|
    requires readTs <= run[i].clock && readTs <= run[j].clock
    requires Answer(route, run[i], k1, readTs).Value? && Answer(route, run[j], k2, readTs).Value?
    requires var end := run[|run| - 1];
             && t in end.txns && Stamp(end.txns[t]).Some? && !IsOneShot(end.txns[t])
             && Last(end.txns[t].writes, k1).Some? && Last(end.txns[t].writes, k2).Some?
    requires Serves(route, run[i], t1, k1, readTs) && Serves(route, run[j], t2, k2, readTs)
    ensures M.SeekGet(t1, StoreOf(run[i], route(k1)).locks, k1, readTs) == Answer(route, run[i], k1, readTs)
    ensures M.SeekGet(t2, StoreOf(run[j], route(k2)).locks, k2, readTs) == Answer(route, run[j], k2, readTs)
    ensures var ts := Stamp(run[|run| - 1].txns[t]).value;
            SeekReflects(t1, k1, readTs, ts) <==> SeekReflects(t2, k2, readTs, ts)
  {
    var ts := Stamp(run[|run| - 1].txns[t]).value;
    SnapshotAtomicity(route, run, i, j, t, k1, k2, readTs);
    SeekReflectsExactly(route, run[i], t1, k1, readTs, ts);
    SeekReflectsExactly(route, run[j], t2, k2, readTs, ts);
  }

  /** Collection up to the read's timestamp changes neither the seek's answer nor what it reflects. */
  lemma CollectedSeek(route: Route, s: System, t: Tree.Tree, safeTs: Ts, k: bytes, readTs: Ts, ts: Ts)
    requires Serves(route, s, t, k, readTs) && safeTs <= readTs
    ensures var u := Gc.Collect(t, safeTs);
            && (SeekReflects(u, k, readTs, ts) <==> SeekReflects(t, k, readTs, ts))
            && SeekRead.MvccGet(u, k, readTs) == SeekRead.MvccGet(t, k, readTs)
  {
    var u := Gc.Collect(t, safeTs);
    SeekRead.SeekReadExact(t, k, readTs);
    Gc.CollectPreservesReads(t, safeTs, k, readTs);
    Gc.CollectSubset(t, safeTs);
    if SeekRead.MvccGet(t, k, readTs).Some? {
      SeekRead.SeekHit(t, k, readTs);
      SeekRead.SeekHit(u, k, readTs);
    }
  }

  /** So the engines' reads stay atomic when each store was collected up to any timestamp not after the read's. */
  lemma CollectedAtomicity(route: Route, run: seq<System>, i: nat, j: nat, t: TxnId, k1: bytes, k2: bytes, readTs: Ts,
                           t1: Tree.Tree, t2: Tree.Tree, safe1: Ts, safe2: Ts)
    requires IsRun(route, run) && i < |run| && j < |run|
    requires readTs <= run[i].clock && readTs <= run[j].clock && safe1 <= readTs && safe2 <= readTs
    requires Answer(route, run[i], k1, readTs).Value? && Answer(route, run[j], k2, readTs).Value?
    requires var end := run[|run| - 1];
             && t in end.txns && Stamp(end.txns[t]).Some? && !IsOneShot(end.txns[t])
             && Last(end.txns[t].writes, k1).Some? && Last(end.txns[t].writes, k2).Some?
    requires Serves(route, run[i], t1, k1, readTs) && Serves(route, run[j], t2, k2, readTs)
    ensures var locks1, locks2 := StoreOf(run[i], route(k1)).locks, StoreOf(run[j], route(k2)).locks;
            && M.SeekGet(Gc.Collect(t1, safe1), locks1, k1, readTs) == Answer(route, run[i], k1, readTs)
            && M.SeekGet(Gc.Collect(t2, safe2), locks2, k2, readTs) == Answer(route, run[j], k2, readTs)
    ensures var ts := Stamp(run[|run| - 1].txns[t]).value;
            SeekReflects(Gc.Collect(t1, safe1), k1, readTs, ts) <==> SeekReflects(Gc.Collect(t2, safe2), k2, readTs, ts)
  {
    var ts := Stamp(run[|run| - 1].txns[t]).value;
    EngineAtomicity(route, run, i, j, t, k1, k2, readTs, t1, t2);
    CollectedSeek(route, run[i], t1, safe1, k1, readTs, ts);
    CollectedSeek(route, run[j], t2, safe2, k2, readTs, ts);
  }
}
