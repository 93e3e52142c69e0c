/** One shard's store as its users see it: a map of versions and a table of exclusive locks. */
module Store {
  import opened Bytes
  import opened Mvcc

  type TxnId = bytes

  datatype Lock = Lock(txn: TxnId, value: bytes)
  datatype Write = Write(key: bytes, value: bytes)
  datatype Store = Store(versions: map<Version, bytes>, locks: map<bytes, Lock>)
  datatype ReadResult = Locked(holder: TxnId) | Value(found: Option<bytes>)

  const EMPTY := Store(map[], map[])

  // ---------- writes ----------

  predicate LockedByOther(s: Store, key: bytes, txn: TxnId) {
    key in s.locks && s.locks[key].txn != txn
  }

  function Prepare(s: Store, key: bytes, value: bytes, txn: TxnId): Store {
    if LockedByOther(s, key, txn) then s else s.(locks := s.locks[key := Lock(txn, value)])
  }

  predicate Holds(s: Store, key: bytes, txn: TxnId) {
    key in s.locks && s.locks[key].txn == txn
  }

  function Commit(s: Store, key: bytes, txn: TxnId, ts: Ts): Store {
    if Holds(s, key, txn) then Store(s.versions[Version(key, ts) := s.locks[key].value], s.locks - {key}) else s
  }

  function Abort(s: Store, key: bytes, txn: TxnId): Store {
    if Holds(s, key, txn) then s.(locks := s.locks - {key}) else s
  }

  function Keys(ws: seq<Write>): set<bytes> {
    set w | w in ws :: w.key
  }

  /** The last value written to a key. */
  function Last(ws: seq<Write>, key: bytes): Option<bytes> {
    if |ws| == 0 then None
    else if ws[|ws| - 1].key == key then Some(ws[|ws| - 1].value)
    else Last(ws[..|ws| - 1], key)
  }

  /** Some key of the batch is locked by another transaction. */
  predicate Blocked(s: Store, ws: seq<Write>, txn: TxnId) {
    exists w :: w in ws && LockedByOther(s, w.key, txn)
  }

  function InstallAll(m: map<Version, bytes>, ws: seq<Write>, ts: Ts): map<Version, bytes> {
    if |ws| == 0 then m
    else
      var w := ws[|ws| - 1];
      InstallAll(m, ws[..|ws| - 1], ts)[Version(w.key, ts) := w.value]
  }

  function OnePhaseCommit(s: Store, ws: seq<Write>, txn: TxnId, ts: Ts): Store {
    if Blocked(s, ws, txn) then s else Store(InstallAll(s.versions, ws, ts), s.locks - Keys(ws))
  }

  /** Raw entries overlay the versions, whatever is locked. */
  function Ingest(s: Store, data: map<Version, bytes>): Store {
    s.(versions := s.versions + data)
  }

  // ---------- reads ----------

  /** The newest timestamp not after readTs at which the key has a version: searched one timestamp at a time. */
  ghost function NewestTs(m: map<Version, bytes>, key: bytes, readTs: Ts): Option<Ts>
    decreases readTs
  {
    if Version(key, readTs) in m then Some(readTs)
    else if readTs == 0 then None
    else NewestTs(m, key, readTs - 1)
  }

  ghost function ReadAt(m: map<Version, bytes>, key: bytes, readTs: Ts): Option<bytes> {
    match NewestTs(m, key, readTs)
    case None => None
    case Some(ts) => NewestSpec(m, key, readTs); Some(m[Version(key, ts)])
  }

  ghost function GetTxn(s: Store, key: bytes, readTs: Ts): ReadResult {
    if key in s.locks then Locked(s.locks[key].txn) else Value(ReadAt(s.versions, key, readTs))
  }

  /** ts is the greatest timestamp of the key not after readTs. */
  ghost predicate IsNewest(m: map<Version, bytes>, key: bytes, readTs: Ts, ts: Ts) {
    && ts <= readTs
    && Version(key, ts) in m
    && forall u: Ts :: Version(key, u) in m && u <= readTs ==> u <= ts
  }

  ghost predicate NoneUpTo(m: map<Version, bytes>, key: bytes, readTs: Ts) {
    forall u: Ts :: u <= readTs ==> Version(key, u) !in m
  }

  lemma {:induction false} NewestSpec(m: map<Version, bytes>, key: bytes, readTs: Ts)
    ensures NewestTs(m, key, readTs).None? ==> NoneUpTo(m, key, readTs)
    ensures NewestTs(m, key, readTs).Some? ==> IsNewest(m, key, readTs, NewestTs(m, key, readTs).value)
    decreases readTs
  {
    if Version(key, readTs) !in m && readTs > 0 { NewestSpec(m, key, readTs - 1); }
  }

  /** The specification determines the answer. */
  lemma NewestUnique(m: map<Version, bytes>, key: bytes, readTs: Ts)
    ensures forall ts: Ts :: IsNewest(m, key, readTs, ts) ==> NewestTs(m, key, readTs) == Some(ts)
    ensures NoneUpTo(m, key, readTs) ==> NewestTs(m, key, readTs) == None
  {
    NewestSpec(m, key, readTs);
  }

  /** A read depends only on the versions of its key up to its timestamp. */
  ghost predicate SameUpTo(m: map<Version, bytes>, n: map<Version, bytes>, key: bytes, readTs: Ts) {
    forall u: Ts :: u <= readTs ==>
                      && (Version(key, u) in m <==> Version(key, u) in n)
                      && (Version(key, u) in m ==> m[Version(key, u)] == n[Version(key, u)])
  }

  lemma ReadFrame(m: map<Version, bytes>, n: map<Version, bytes>, key: bytes, readTs: Ts)
    requires SameUpTo(m, n, key, readTs)
    ensures NewestTs(m, key, readTs) == NewestTs(n, key, readTs)
    ensures ReadAt(m, key, readTs) == ReadAt(n, key, readTs)
  {
    NewestSpec(m, key, readTs);
    NewestSpec(n, key, readTs);
  }

  // ---------- lock exclusion ----------

  datatype Op =
    | PrepareOp(key: bytes, value: bytes, txn: TxnId)
    | CommitOp(key: bytes, txn: TxnId, ts: Ts)
    | AbortOp(key: bytes, txn: TxnId)
    | OnePhaseOp(ws: seq<Write>, txn: TxnId, ts: Ts)
    | IngestOp(data: map<Version, bytes>)

  function Apply(s: Store, op: Op): Store {
    match op
    case PrepareOp(key, value, txn) => Prepare(s, key, value, txn)
    case CommitOp(key, txn, ts) => Commit(s, key, txn, ts)
    case AbortOp(key, txn) => Abort(s, key, txn)
    case OnePhaseOp(ws, txn, ts) => OnePhaseCommit(s, ws, txn, ts)
    case IngestOp(data) => Ingest(s, data)
  }

  function Run(s: Store, ops: seq<Op>): Store
    decreases |ops|
  {
    if |ops| == 0 then s else Run(Apply(s, ops[0]), ops[1..])
  }

  /** The transaction itself ends its lock on the key. */
  predicate Ends(op: Op, key: bytes, txn: TxnId) {
    match op
    case PrepareOp(_, _, _) => false
    case CommitOp(k, t, _) => k == key && t == txn
    case AbortOp(k, t) => k == key && t == txn
    case OnePhaseOp(ws, t, _) => key in Keys(ws) && t == txn
    case IngestOp(_) => false
  }

  /** The value of the transaction's latest prepare of the key, starting from the one it holds. */
  function LatestPrepared(ops: seq<Op>, key: bytes, txn: TxnId, held: bytes): bytes {
    if |ops| == 0 then held
    else
      var now := if ops[0].PrepareOp? && ops[0].key == key && ops[0].txn == txn then ops[0].value else held;
      LatestPrepared(ops[1..], key, txn, now)
  }

  ghost predicate SameVersions(m: map<Version, bytes>, n: map<Version, bytes>, key: bytes) {
    SameUpTo(m, n, key, MAX_TS)
  }

  lemma {:induction false} InstallOther(m: map<Version, bytes>, ws: seq<Write>, ts: Ts, v: Version)
    requires v.ts != ts || v.key !in Keys(ws)
    ensures v in InstallAll(m, ws, ts) <==> v in m
    ensures v in m ==> InstallAll(m, ws, ts)[v] == m[v]
  {
    if |ws| > 0 {
      assert ws[|ws| - 1] in ws;
      InstallOther(m, ws[..|ws| - 1], ts, v);
    }
  }

  /** The versions overlaid by the ingests among the operations, in turn. */
  function IngestAll(m: map<Version, bytes>, ops: seq<Op>): map<Version, bytes>
    decreases |ops|
  {
    if |ops| == 0 then m else IngestAll(if ops[0].IngestOp? then m + ops[0].data else m, ops[1..])
  }

  /** Whatever other transactions do, a lock stays until its holder ends it, only ingests change the versions of
      the key meanwhile, and the holder's commit then installs its latest prepared value. */
  lemma {:induction false} LockExclusion(s: Store, ops: seq<Op>, key: bytes, txn: TxnId, ts: Ts)
    requires Holds(s, key, txn)
    requires forall op :: op in ops ==> !Ends(op, key, txn)
    ensures var r, v := Run(s, ops), LatestPrepared(ops, key, txn, s.locks[key].value);
            && key in r.locks && r.locks[key] == Lock(txn, v)
            && SameVersions(IngestAll(s.versions, ops), r.versions, key)
            && Run(s, ops + [CommitOp(key, txn, ts)]) == Store(r.versions[Version(key, ts) := v], r.locks - {key})
            && Run(s, ops + [AbortOp(key, txn)]) == Store(r.versions, r.locks - {key})
    decreases |ops|
  {
    RunMore(s, ops, CommitOp(key, txn, ts));
    RunMore(s, ops, AbortOp(key, txn));
    if |ops| > 0 {
      var op := ops[0];
      assert op in ops;
      var n := Apply(s, op);
      LockKept(s, op, key, txn);
      LockExclusion(n, ops[1..], key, txn, ts);
      IngestSame(if op.IngestOp? then s.versions + op.data else s.versions, n.versions, ops[1..], key);
    }
  }

  lemma {:induction false} RunMore(s: Store, ops: seq<Op>, op: Op)
    ensures Run(s, ops + [op]) == Apply(Run(s, ops), op)
    decreases |ops|
  {
    if |ops| == 0 {
      assert (ops + [op])[1..] == [];
    } else {
      RunMore(Apply(s, ops[0]), ops[1..], op);
      assert (ops + [op])[1..] == ops[1..] + [op];
    }
  }

  /** One operation. */
  lemma LockKept(s: Store, op: Op, key: bytes, txn: TxnId)
    requires Holds(s, key, txn) && !Ends(op, key, txn)
    ensures Holds(Apply(s, op), key, txn)
    ensures Apply(s, op).locks[key].value ==
            if op.PrepareOp? && op.key == key && op.txn == txn then op.value else s.locks[key].value
    ensures SameVersions(if op.IngestOp? then s.versions + op.data else s.versions, Apply(s, op).versions, key)
  {
    if op.OnePhaseOp? && key in Keys(op.ws) {
      var w :| w in op.ws && w.key == key;
      assert Blocked(s, op.ws, op.txn);
    } else if op.OnePhaseOp? {
      forall u: Ts
        ensures Version(key, u) in InstallAll(s.versions, op.ws, op.ts) <==> Version(key, u) in s.versions
        ensures Version(key, u) in s.versions ==>
                  InstallAll(s.versions, op.ws, op.ts)[Version(key, u)] == s.versions[Version(key, u)] {
        InstallOther(s.versions, op.ws, op.ts, Version(key, u));
      }
    }
  }

  lemma {:induction false} IngestSame(m: map<Version, bytes>, n: map<Version, bytes>, ops: seq<Op>, key: bytes)
    requires SameVersions(m, n, key)
    ensures SameVersions(IngestAll(m, ops), IngestAll(n, ops), key)
    decreases |ops|
  {
    if |ops| > 0 {
      var op := ops[0];
      IngestSame(if op.IngestOp? then m + op.data else m, if op.IngestOp? then n + op.data else n, ops[1..], key);
    }
  }

  /** So no version of a locked key appears or changes if the ingests bring none. */
  lemma LockedKeyUntouched(s: Store, ops: seq<Op>, key: bytes, txn: TxnId)
    requires Holds(s, key, txn)
    requires forall op :: op in ops ==> !Ends(op, key, txn)
    requires forall op, v :: op in ops && op.IngestOp? && v in op.data ==> v.key != key
    ensures SameVersions(s.versions, Run(s, ops).versions, key)
  {
    LockExclusion(s, ops, key, txn, 0);
    IngestElsewhere(s.versions, ops, key);
  }

  lemma {:induction false} IngestElsewhere(m: map<Version, bytes>, ops: seq<Op>, key: bytes)
    requires forall op, v :: op in ops && op.IngestOp? && v in op.data ==> v.key != key
    ensures SameVersions(m, IngestAll(m, ops), key)
    decreases |ops|
  {
    if |ops| > 0 {
      assert ops[0] in ops;
      IngestElsewhere(if ops[0].IngestOp? then m + ops[0].data else m, ops[1..], key);
    }
  }

  // ---------- the single-shard fast path ----------

  function PrepareAll(s: Store, ws: seq<Write>, txn: TxnId): Store {
    if |ws| == 0 then s
    else
      var w := ws[|ws| - 1];
      Prepare(PrepareAll(s, ws[..|ws| - 1], txn), w.key, w.value, txn)
  }

  function CommitAll(s: Store, ws: seq<Write>, txn: TxnId, ts: Ts): Store {
    if |ws| == 0 then s
    else Commit(CommitAll(s, ws[..|ws| - 1], txn, ts), ws[|ws| - 1].key, txn, ts)
  }

  lemma {:induction false} LastKeys(ws: seq<Write>, key: bytes)
    ensures Last(ws, key).Some? <==> key in Keys(ws)
  {
    if |ws| > 0 {
      LastKeys(ws[..|ws| - 1], key);
      assert ws == ws[..|ws| - 1] + [ws[|ws| - 1]];
      assert ws[|ws| - 1] in ws;
      if key in Keys(ws) && ws[|ws| - 1].key != key {
        var w :| w in ws && w.key == key;
        assert w in ws[..|ws| - 1];
      }
    }
  }

  lemma KeysSnoc(ws: seq<Write>)
    requires |ws| > 0
    ensures Keys(ws) == Keys(ws[..|ws| - 1]) + {ws[|ws| - 1].key}
  {
    assert ws == ws[..|ws| - 1] + [ws[|ws| - 1]];
    assert ws[|ws| - 1] in ws;
    forall k | k in Keys(ws) ensures k in Keys(ws[..|ws| - 1]) + {ws[|ws| - 1].key} {
      LastKeys(ws, k);
      LastKeys(ws[..|ws| - 1], k);
    }
  }

  /** The batch grown by one write. */
  lemma InstallNext(m: map<Version, bytes>, ws: seq<Write>, i: nat, ts: Ts)
    requires i < |ws|
    ensures InstallAll(m, ws[..i + 1], ts) == InstallAll(m, ws[..i], ts)[Version(ws[i].key, ts) := ws[i].value]
    ensures Keys(ws[..i + 1]) == Keys(ws[..i]) + {ws[i].key}
  {
    assert ws[..i + 1][..i] == ws[..i];
    KeysSnoc(ws[..i + 1]);
  }

  /** The batch leaves each of its keys at its last value and touches nothing else. */
  lemma {:induction false} InstallLast(m: map<Version, bytes>, ws: seq<Write>, ts: Ts, key: bytes)
    requires key in Keys(ws)
    ensures Version(key, ts) in InstallAll(m, ws, ts)
    ensures Last(ws, key) == Some(InstallAll(m, ws, ts)[Version(key, ts)])
  {
    LastKeys(ws, key);
    if ws[|ws| - 1].key != key {
      LastKeys(ws[..|ws| - 1], key);
      InstallLast(m, ws[..|ws| - 1], ts, key);
    }
  }

  /** Preparing the whole batch locks each of its keys with its last value. */
  lemma {:induction false} PrepareAllAt(s: Store, ws: seq<Write>, txn: TxnId, key: bytes)
    requires !Blocked(s, ws, txn)
    ensures var p := PrepareAll(s, ws, txn);
            && p.versions == s.versions
            && if key in Keys(ws)
               then key in p.locks && p.locks[key].txn == txn && Last(ws, key) == Some(p.locks[key].value)
               else (key in p.locks <==> key in s.locks) && (key in p.locks ==> p.locks[key] == s.locks[key])
  {
    if |ws| > 0 {
      var front, w := ws[..|ws| - 1], ws[|ws| - 1];
      assert w in ws;
      KeysSnoc(ws);
      PrepareAllAt(s, front, txn, key);
      PrepareAllAt(s, front, txn, w.key);
      assert !LockedByOther(PrepareAll(s, front, txn), w.key, txn);
    }
  }

  /** The first n commits release exactly their own keys. */
  lemma {:induction false} CommitAllLocks(s: Store, ws: seq<Write>, txn: TxnId, ts: Ts, n: nat, key: bytes)
    requires !Blocked(s, ws, txn) && n <= |ws|
    ensures var p, c := PrepareAll(s, ws, txn).locks, CommitAll(PrepareAll(s, ws, txn), ws[..n], txn, ts).locks;
            && (key in c <==> key in p && key !in Keys(ws[..n]))
            && (key in c ==> c[key] == p[key])
    decreases n
  {
    if n > 0 {
      CommitAllLocks(s, ws, txn, ts, n - 1, key);
      CommitAllLocks(s, ws, txn, ts, n - 1, ws[n - 1].key);
      InstallNext(s.versions, ws, n - 1, ts);
      CommitAllNext(PrepareAll(s, ws, txn), ws, txn, ts, n);
      assert ws[n - 1] in ws;
      PrepareAllAt(s, ws, txn, ws[n - 1].key);
    }
  }

  lemma CommitAllNext(s: Store, ws: seq<Write>, txn: TxnId, ts: Ts, n: nat)
    requires 0 < n <= |ws|
    ensures CommitAll(s, ws[..n], txn, ts) == Commit(CommitAll(s, ws[..n - 1], txn, ts), ws[n - 1].key, txn, ts)
  {
    assert ws[..n][..n - 1] == ws[..n - 1];
  }

  /** Of the commits of a prepared batch, the first for each key succeeds and every repetition fails. */
  lemma RepeatedCommitFails(s: Store, ws: seq<Write>, txn: TxnId, ts: Ts, n: nat)
    requires !Blocked(s, ws, txn) && n < |ws|
    ensures Holds(CommitAll(PrepareAll(s, ws, txn), ws[..n], txn, ts), ws[n].key, txn) <==> ws[n].key !in Keys(ws[..n])
  {
    PrepareAllAt(s, ws, txn, ws[n].key);
    CommitAllLocks(s, ws, txn, ts, n, ws[n].key);
    assert ws[n] in ws;
  }

  /** After the first n commits, a version is the last write of a committed key or what it was. */
  lemma {:induction false} CommitAllVersions(s: Store, ws: seq<Write>, txn: TxnId, ts: Ts, n: nat, v: Version)
    requires !Blocked(s, ws, txn) && n <= |ws|
    ensures var r := CommitAll(PrepareAll(s, ws, txn), ws[..n], txn, ts).versions;
            if v.ts == ts && v.key in Keys(ws[..n]) then v in r && Last(ws, v.key) == Some(r[v])
            else (v in r <==> v in s.versions) && (v in r ==> r[v] == s.versions[v])
    decreases n
  {
    PrepareAllAt(s, ws, txn, v.key);
    if n > 0 {
      CommitAllVersions(s, ws, txn, ts, n - 1, v);
      CommitAllLocks(s, ws, txn, ts, n - 1, ws[n - 1].key);
      InstallNext(s.versions, ws, n - 1, ts);
      CommitAllNext(PrepareAll(s, ws, txn), ws, txn, ts, n);
      assert ws[n - 1] in ws;
    }
  }

  /** The one-phase path leaves exactly what preparing and then committing every write leaves;
      a batch with a foreign lock changes nothing. */
  lemma FastPathRefines(s: Store, ws: seq<Write>, txn: TxnId, ts: Ts)
    ensures Blocked(s, ws, txn) ==> OnePhaseCommit(s, ws, txn, ts) == s
    ensures !Blocked(s, ws, txn) ==> OnePhaseCommit(s, ws, txn, ts) == CommitAll(PrepareAll(s, ws, txn), ws, txn, ts)
  {
    if !Blocked(s, ws, txn) {
      var p := PrepareAll(s, ws, txn);
      var r := CommitAll(p, ws, txn, ts);
      assert ws[..|ws|] == ws;
      forall k: bytes ensures k in r.locks <==> k in s.locks - Keys(ws)
                      ensures k in r.locks ==> r.locks[k] == s.locks[k] {
        PrepareAllAt(s, ws, txn, k);
        CommitAllLocks(s, ws, txn, ts, |ws|, k);
      }
      assert r.locks == s.locks - Keys(ws);
      var m := InstallAll(s.versions, ws, ts);
      forall v: Version ensures v in m <==> v in r.versions
               ensures v in m ==> m[v] == r.versions[v] {
        CommitAllVersions(s, ws, txn, ts, |ws|, v);
        if v.ts == ts && v.key in Keys(ws) {
          InstallLast(s.versions, ws, ts, v.key);
          assert v == Version(v.key, ts);
        } else {
          InstallOther(s.versions, ws, ts, v);
        }
      }
      assert m == r.versions;
    }
  }
}
