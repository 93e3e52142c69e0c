/** Replicated log entries: the text the shard's handlers propose and the applier that reads it back. */
module Command {
  import opened Bytes
  import opened Mvcc
  import opened Text
  import S = Store
  import M = MemoryStore
  import Sql

  /** "PREPARE", "COMMIT", "ABORT", "ONESHOT " and "SQL:" */
  const PREPARE: bytes := [0x50, 0x52, 0x45, 0x50, 0x41, 0x52, 0x45]
  const COMMIT: bytes := [0x43, 0x4F, 0x4D, 0x4D, 0x49, 0x54]
  const ABORT: bytes := [0x41, 0x42, 0x4F, 0x52, 0x54]
  const ONESHOT_: bytes := [0x4F, 0x4E, 0x45, 0x53, 0x48, 0x4F, 0x54, 0x20]
  const SQL_: bytes := [0x53, 0x51, 0x4C, 0x3A]

  // ---------- the handlers ----------

  function FormatPrepare(key: bytes, value: bytes, txn: bytes): bytes {
    Join([PREPARE, key, value, txn], SPACE)
  }

  /** The commit handler passes the timestamp on as text. */
  function FormatCommit(key: bytes, txn: bytes, ts: bytes): bytes {
    Join([COMMIT, key, txn, ts], SPACE)
  }

  function FormatAbort(key: bytes, txn: bytes): bytes {
    Join([ABORT, key, txn], SPACE)
  }

  // ---------- the applier ----------

  datatype Cmd =
    | PrepareCmd(key: bytes, value: bytes, txn: bytes)
    | CommitCmd(key: bytes, txn: bytes, ts: Ts)
    | AbortCmd(key: bytes, txn: bytes)
    | OneShotCmd(json: bytes)
    | SqlCmd(text: bytes)
    | Ignored

  /** The applier's dispatch: on the leading word, then on the number of fields. */
  function ReadEntry(s: bytes): Cmd {
    var parts := Split(s, SPACE);
    if PREPARE + [SPACE] <= s then
      if |parts| == 4 then PrepareCmd(parts[1], parts[2], parts[3]) else Ignored
    else if COMMIT + [SPACE] <= s then
      if |parts| == 4 then CommitCmd(parts[1], parts[2], ScanUint64(parts[3])) else Ignored
    else if ABORT + [SPACE] <= s then
      if |parts| == 3 then AbortCmd(parts[1], parts[2]) else Ignored
    else if ONESHOT_ <= s then OneShotCmd(s[|ONESHOT_|..])
    else if SQL_ <= s then SqlCmd(s[|SQL_|..])
    else Ignored
  }

  /** The decoded body of a one-shot request. */
  datatype OneShotReq = OneShotReq(ops: seq<S.Write>, txn: bytes, ts: Ts)

  datatype Insert = Insert(table: bytes, values: seq<bytes>)

  /** What an entry does to the store. Decoding JSON and parsing SQL are parameters; only inserts are executed
      from the log, at timestamp 100. */
  function Effect(s: S.Store, cmd: Cmd, json: bytes -> OneShotReq, sql: bytes -> Option<Insert>): S.Store {
    match cmd
    case PrepareCmd(key, value, txn) => S.Prepare(s, key, value, txn)
    case CommitCmd(key, txn, ts) => S.Commit(s, key, txn, ts)
    case AbortCmd(key, txn) => S.Abort(s, key, txn)
    case OneShotCmd(text) => S.OnePhaseCommit(s, json(text).ops, json(text).txn, json(text).ts)
    case SqlCmd(text) => (match sql(text) case None => s case Some(ins) => Sql.Inserted(s, ins.table, ins.values, 100))
    case Ignored => s
  }

  /** The store after an entry. */
  function Applied(s: S.Store, entry: bytes, json: bytes -> OneShotReq, sql: bytes -> Option<Insert>): S.Store {
    Effect(s, ReadEntry(entry), json, sql)
  }

  class ApplierAdapter {
    const engine: M.MemoryStore

    constructor (engine: M.MemoryStore)
      ensures this.engine == engine
    {
      this.engine := engine;
    }

    /** Errors of the engine are only logged. */
    method Apply(entry: bytes, json: bytes -> OneShotReq, sql: bytes -> Option<Insert>)
      requires engine.Valid()
      modifies engine
      ensures engine.Valid()
      ensures engine.Contents() == Applied(old(engine.Contents()), entry, json, sql)
    {
      Perform(engine, ReadEntry(entry), json, sql);
    }
  }

  method Perform(engine: M.MemoryStore, cmd: Cmd, json: bytes -> OneShotReq, sql: bytes -> Option<Insert>)
    requires engine.Valid()
    modifies engine
    ensures engine.Valid()
    ensures engine.Contents() == Effect(old(engine.Contents()), cmd, json, sql)
  {
    var ok := true;
    match cmd
    case PrepareCmd(key, value, txn) =>
      var holder := engine.Prepare(key, value, txn);
    case CommitCmd(key, txn, ts) =>
      ok := engine.Commit(key, txn, ts);
    case AbortCmd(key, txn) =>
      ok := engine.Abort(key, txn);
    case OneShotCmd(text) =>
      var req := json(text);
      ok := engine.OnePhaseCommit(req.ops, req.txn, req.ts);
    case SqlCmd(text) =>
      var plan := sql(text);
      if plan.Some? {
        ok := Sql.ExecuteInsert(engine, plan.value.table, plan.value.values, 100);
      }
    case Ignored =>
  }

  // ---------- round trip ----------

  lemma WordsHaveNoSpaces()
    ensures SPACE !in PREPARE && SPACE !in COMMIT && SPACE !in ABORT
  {
  }

  lemma JoinStarts(word: bytes, rest: seq<bytes>)
    requires |rest| > 0
    ensures word + [SPACE] <= Join([word] + rest, SPACE)
  {
    assert ([word] + rest)[1..] == rest;
    assert Join([word] + rest, SPACE) == word + [SPACE] + Join(rest, SPACE);
  }

  /** A prepare is read back as proposed if and only if no argument contains a space; otherwise the entry
      is ignored. */
  lemma PrepareRoundTrip(key: bytes, value: bytes, txn: bytes)
    ensures ReadEntry(FormatPrepare(key, value, txn)) ==
            if Free([key, value, txn], SPACE) then PrepareCmd(key, value, txn) else Ignored
  {
    var fields := [PREPARE, key, value, txn];
    WordsHaveNoSpaces();
    assert fields == [PREPARE] + [key, value, txn];
    JoinStarts(PREPARE, [key, value, txn]);
    SplitJoin(fields, SPACE);
    FieldSpaces(PREPARE, [key, value, txn]);
  }

  lemma FieldSpaces(word: bytes, rest: seq<bytes>)
    requires SPACE !in word
    ensures Free([word] + rest, SPACE) <==> Free(rest, SPACE)
  {
    assert forall f :: f in [word] + rest <==> f == word || f in rest;
  }

  /** A commit likewise; its timestamp is what scanning the text gives, 0 for a text that is no number. */
  lemma CommitTextRead(key: bytes, txn: bytes, ts: bytes)
    ensures ReadEntry(FormatCommit(key, txn, ts)) ==
            if Free([key, txn, ts], SPACE) then CommitCmd(key, txn, ScanUint64(ts)) else Ignored
  {
    var fields := [COMMIT, key, txn, ts];
    WordsHaveNoSpaces();
    assert fields == [COMMIT] + [key, txn, ts];
    JoinStarts(COMMIT, [key, txn, ts]);
    SplitJoin(fields, SPACE);
    FieldSpaces(COMMIT, [key, txn, ts]);
    assert FormatCommit(key, txn, ts)[0] == COMMIT[0];
  }

  /** The timestamp the coordinator printed is recovered. */
  lemma CommitRoundTrip(key: bytes, txn: bytes, ts: Ts)
    ensures ReadEntry(FormatCommit(key, txn, Decimal(ts))) ==
            if Free([key, txn], SPACE) then CommitCmd(key, txn, ts) else Ignored
  {
    ScanDecimal(ts);
    CommitTextRead(key, txn, Decimal(ts));
    assert Free([key, txn, Decimal(ts)], SPACE) <==> Free([key, txn], SPACE) by {
      assert forall f :: f in [key, txn, Decimal(ts)] <==> f in [key, txn] || f == Decimal(ts);
    }
  }

  lemma AbortRoundTrip(key: bytes, txn: bytes)
    ensures ReadEntry(FormatAbort(key, txn)) == if Free([key, txn], SPACE) then AbortCmd(key, txn) else Ignored
  {
    var fields := [ABORT, key, txn];
    WordsHaveNoSpaces();
    assert fields == [ABORT] + [key, txn];
    JoinStarts(ABORT, [key, txn]);
    SplitJoin(fields, SPACE);
    FieldSpaces(ABORT, [key, txn]);
    assert FormatAbort(key, txn)[0] == ABORT[0];
  }

  // ---------- what the entries do ----------

  /** The texts the handlers propose, byte by byte. */
  lemma EntryTexts(key: bytes, value: bytes, txn: bytes, ts: bytes)
    ensures FormatPrepare(key, value, txn) ==
            [0x50, 0x52, 0x45, 0x50, 0x41, 0x52, 0x45, 0x20] + key + [0x20] + value + [0x20] + txn
    ensures FormatCommit(key, txn, ts) ==
            [0x43, 0x4F, 0x4D, 0x4D, 0x49, 0x54, 0x20] + key + [0x20] + txn + [0x20] + ts
    ensures FormatAbort(key, txn) == [0x41, 0x42, 0x4F, 0x52, 0x54, 0x20] + key + [0x20] + txn
  {
    JoinFour(PREPARE, key, value, txn);
    JoinFour(COMMIT, key, txn, ts);
    JoinThree(ABORT, key, txn);
  }

  lemma JoinThree(a: bytes, b: bytes, c: bytes)
    ensures Join([a, b, c], SPACE) == a + [SPACE] + b + [SPACE] + c
  {
    assert [a, b, c][1..] == [b, c] && [b, c][1..] == [c];
    assert Join([b, c], SPACE) == b + [SPACE] + c;
    assert a + [SPACE] + (b + [SPACE] + c) == a + [SPACE] + b + [SPACE] + c;
  }

  lemma JoinFour(a: bytes, b: bytes, c: bytes, d: bytes)
    ensures Join([a, b, c, d], SPACE) == a + [SPACE] + b + [SPACE] + c + [SPACE] + d
  {
    assert [a, b, c, d][1..] == [b, c, d];
    JoinThree(b, c, d);
    assert a + [SPACE] + (b + [SPACE] + c + [SPACE] + d) == a + [SPACE] + b + [SPACE] + c + [SPACE] + d;
  }

  /** A prepare and then a commit of it install the value at the timestamp and leave the key unlocked, unless another
      transaction holds the key: then both are without effect. */
  lemma PrepareThenCommit(s: S.Store, key: bytes, value: bytes, txn: bytes, ts: Ts, json: bytes -> OneShotReq,
                          sql: bytes -> Option<Insert>)
    requires Free([key, value, txn], SPACE)
    ensures var p := Applied(s, FormatPrepare(key, value, txn), json, sql);
            Applied(p, FormatCommit(key, txn, Decimal(ts)), json, sql) ==
            if S.LockedByOther(s, key, txn) then s
            else S.Store(s.versions[Version(key, ts) := value], s.locks - {key})
  {
    PrepareRoundTrip(key, value, txn);
    CommitRoundTrip(key, txn, ts);
    assert Free([key, txn], SPACE) by { assert key in [key, value, txn] && txn in [key, value, txn]; }
    if !S.LockedByOther(s, key, txn) {
      assert s.locks[key := S.Lock(txn, value)] - {key} == s.locks - {key};
    }
  }

  /** An abort drops the holder's lock on the key and does nothing else; a commit without the lock does nothing. */
  lemma AbortOrLateCommit(s: S.Store, key: bytes, txn: bytes, ts: Ts, json: bytes -> OneShotReq,
                          sql: bytes -> Option<Insert>)
    requires Free([key, txn], SPACE)
    ensures Applied(s, FormatAbort(key, txn), json, sql) ==
            if key in s.locks && s.locks[key].txn == txn then S.Store(s.versions, s.locks - {key}) else s
    ensures !(key in s.locks && s.locks[key].txn == txn) ==>
              Applied(s, FormatCommit(key, txn, Decimal(ts)), json, sql) == s
  {
    AbortRoundTrip(key, txn);
    CommitRoundTrip(key, txn, ts);
  }

  /** "ONESHOT " and a body: with a foreign lock on some key nothing happens; otherwise every written key has its last
      value at the request's timestamp and is unlocked, and everything else stays. */
  lemma OneShotEntry(s: S.Store, body: bytes, json: bytes -> OneShotReq, sql: bytes -> Option<Insert>, k: bytes, u: Ts)
    ensures var r, req := Applied(s, [0x4F, 0x4E, 0x45, 0x53, 0x48, 0x4F, 0x54, 0x20] + body, json, sql), json(body);
            if exists w :: w in req.ops && S.LockedByOther(s, w.key, req.txn) then r == s
            else if k in S.Keys(req.ops) && u == req.ts then
              && r.locks == s.locks - S.Keys(req.ops)
              && Version(k, u) in r.versions && Some(r.versions[Version(k, u)]) == S.Last(req.ops, k)
            else
              && r.locks == s.locks - S.Keys(req.ops)
              && (Version(k, u) in r.versions <==> Version(k, u) in s.versions)
              && (Version(k, u) in s.versions ==> r.versions[Version(k, u)] == s.versions[Version(k, u)])
  {
    var entry, req := ONESHOT_ + body, json(body);
    assert entry[0] == 0x4F && entry[|ONESHOT_|..] == body;
    assert ReadEntry(entry) == OneShotCmd(body);
    if k in S.Keys(req.ops) && u == req.ts {
      S.InstallLast(s.versions, req.ops, u, k);
    } else {
      S.InstallOther(s.versions, req.ops, req.ts, Version(k, u));
    }
  }

  /** "SQL:" and the text of an insert: every read of table:pk from timestamp 100 on answers the columns joined by
      commas, until a newer version. Any other text is without effect. */
  lemma SqlEntry(s: S.Store, text: bytes, json: bytes -> OneShotReq, sql: bytes -> Option<Insert>, readTs: Ts)
    ensures var r := Applied(s, [0x53, 0x51, 0x4C, 0x3A] + text, json, sql);
            if sql(text).None? || sql(text).value.values == [] then r == s
            else
              var ins := sql(text).value;
              var k := ins.table + [0x3A] + ins.values[0];
              if S.LockedByOther(s, k, Sql.AutoTxn(100)) then r == s
              else readTs >= 100 && (forall u: Ts :: Version(k, u) in s.versions && u <= readTs ==> u <= 100) ==>
                     S.GetTxn(r, k, readTs) == S.Value(Some(Join(ins.values, 0x2C)))
  {
    var entry := SQL_ + text;
    assert entry[0] == 0x53 && entry[|SQL_|..] == text;
    assert ReadEntry(entry) == SqlCmd(text);
    if sql(text).Some? && sql(text).value.values != [] {
      var ins := sql(text).value;
      var k := Sql.Prefix(ins.table) + ins.values[0];
      if !S.LockedByOther(s, k, Sql.AutoTxn(100)) && readTs >= 100 &&
         forall u: Ts :: Version(k, u) in s.versions && u <= readTs ==> u <= 100 {
        Sql.InsertIsRead(s, ins.table, ins.values, 100, readTs);
      }
    }
  }

  /** An entry with a word in front but the wrong number of fields is without effect. */
  lemma MalformedEntry(s: S.Store, entry: bytes, word: bytes, json: bytes -> OneShotReq, sql: bytes -> Option<Insert>)
    requires word in {PREPARE, COMMIT, ABORT} && word + [0x20] <= entry
    requires |Split(entry, 0x20)| != if word == ABORT then 3 else 4
    ensures Applied(s, entry, json, sql) == s
  {
    StartsDiffer(word, PREPARE, entry);
    StartsDiffer(word, COMMIT, entry);
    StartsDiffer(word, ABORT, entry);
  }

  lemma StartsDiffer(a: bytes, b: bytes, entry: bytes)
    requires |a| > 0 && |b| > 0 && a + [SPACE] <= entry
    ensures b + [SPACE] <= entry ==> a[0] == b[0]
  {
    assert entry[0] == (a + [SPACE])[0] == a[0];
    if b + [SPACE] <= entry { assert entry[0] == (b + [SPACE])[0] == b[0]; }
  }

  /** An entry that begins with none of the words is without effect. */
  lemma OtherEntry(s: S.Store, entry: bytes, json: bytes -> OneShotReq, sql: bytes -> Option<Insert>)
    requires |entry| > 0 ==> entry[0] !in {0x50, 0x43, 0x41, 0x4F, 0x53}
    ensures Applied(s, entry, json, sql) == s
  {
    assert PREPARE[0] == 0x50 && COMMIT[0] == 0x43 && ABORT[0] == 0x41 && ONESHOT_[0] == 0x4F && SQL_[0] == 0x53;
  }
}
