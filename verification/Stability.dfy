/** Whether the answer of a read can still change. */
module Stability {
  import opened Bytes
  import opened Mvcc
  import opened Store
  import opened TwoPhase
  import opened TwoPhaseInvariant
  import opened Reachability
  import opened Snapshot
  import Aborts

  /** The version a read of the key at readTs is answered with. */
  ghost function Newest(route: Route, s: System, k: bytes, readTs: Ts): Option<Ts> {
    NewestTs(VersionsOf(route, s, k), k, readTs)
  }

  /** A one-shot write of the key was sent with a timestamp not after readTs and newer than the answer. */
  ghost predicate Late(route: Route, s: System, k: bytes, readTs: Ts, m: Msg) {
    m in s.net && m.OneShotMsg? && k in Keys(m.writes) && m.ts <= readTs && !Reflects(route, s, k, readTs, m.ts)
  }

  // ---------- without late one-shots the answer is final ----------

  ghost predicate NotNewer(m: Msg, k: bytes, readTs: Ts, newest: Option<Ts>) {
    m.OneShotMsg? && k in Keys(m.writes) && m.ts <= readTs ==> newest.Some? && m.ts <= newest.value
  }

  /** Nothing can arrive at the key any more with a timestamp not after readTs and newer than the answer. */
  ghost predicate Settled(route: Route, s: System, k: bytes, readTs: Ts, newest: Option<Ts>) {
    && readTs <= s.clock
    && Newest(route, s, k, readTs) == newest
    && (LockAt(route, s, k).Some? && LockAt(route, s, k).value.txn in s.txns ==>
          var p := Stamp(s.txns[LockAt(route, s, k).value.txn]); p.Some? ==> p.value > readTs)
    && forall m :: m in s.net ==> NotNewer(m, k, readTs, newest)
  }

  /** The versions that decide a read's answer: those from the answer on. */
  ghost predicate SameFrom(route: Route, s: System, s': System, k: bytes, readTs: Ts, newest: Option<Ts>) {
    forall ts: Ts :: ts <= readTs && (newest.Some? ==> newest.value <= ts) ==>
                       VersionAt(route, s', k, ts) == VersionAt(route, s, k, ts)
  }

  lemma SameFromSameAnswer(route: Route, s: System, s': System, k: bytes, readTs: Ts)
    requires SameFrom(route, s, s', k, readTs, Newest(route, s, k, readTs))
    ensures Newest(route, s', k, readTs) == Newest(route, s, k, readTs)
    ensures ReadAt(VersionsOf(route, s', k), k, readTs) == ReadAt(VersionsOf(route, s, k), k, readTs)
  {
    var m, n := VersionsOf(route, s, k), VersionsOf(route, s', k);
    var newest := Newest(route, s, k, readTs);
    NewestSpec(m, k, readTs);
    forall u: Ts | u <= readTs && (newest.Some? ==> newest.value <= u)
      ensures Version(k, u) in m <==> Version(k, u) in n
      ensures Version(k, u) in m ==> m[Version(k, u)] == n[Version(k, u)] {
      assert VersionAt(route, s', k, u) == VersionAt(route, s, k, u);
    }
    if newest.Some? {
      assert IsNewest(n, k, readTs, newest.value);
    } else {
      assert NoneUpTo(n, k, readTs);
    }
    NewestUnique(n, k, readTs);
  }

  /** A delivery that changes a version of the key is of a one-shot with that timestamp, or of a commit
      whose transaction holds the key's lock. */
  lemma DeliveryTooLate(route: Route, s: System, m: Msg, k: bytes, ts: Ts)
    requires Inv(route, s) && m in s.net && MsgOk(route, s, m)
    requires VersionAt(route, Receive(s, m), k, ts) != VersionAt(route, s, k, ts)
    ensures VersionAt(route, Receive(s, m), k, ts).Some?
    ensures Installs(s.txns[m.txn], k, ts, VersionAt(route, Receive(s, m), k, ts).value)
    ensures !m.AbortMsg? && m.ts == ts
    ensures m.CommitMsg? ==> HoldsAt(route, s, m.txn, k)
  {
    match m
    case CommitMsg(_, _, _, _) => CommitDelivery(route, s, m, k);
    case AbortMsg(_, _, _) => AbortDelivery(route, s, m, k);
    case OneShotMsg(_, _, _, _) => OneShotDelivery(route, s, m, k);
  }

  /** An applied one-shot installed its last write of the key. */
  lemma OneShotValue(route: Route, s: System, m: Msg, k: bytes)
    requires Inv(route, s) && m in s.net && m.OneShotMsg? && VersionAt(route, s, k, m.ts).Some?
    ensures VersionAt(route, s, k, m.ts) == Last(m.writes, k)
  {
    assert MsgOk(route, s, m) && VersionOk(route, s, k, m.ts);
    var u :| u in s.txns && Installs(s.txns[u], k, m.ts, VersionAt(route, s, k, m.ts).value);
    assert StampsDiffer(s, u, m.txn);
  }

  lemma SettledVersion(route: Route, s: System, m: Msg, k: bytes, readTs: Ts, newest: Option<Ts>, ts: Ts)
    requires Inv(route, s) && m in s.net && Settled(route, s, k, readTs, newest)
    requires ts <= readTs && (newest.Some? ==> newest.value <= ts)
    ensures VersionAt(route, Receive(s, m), k, ts) == VersionAt(route, s, k, ts)
  {
    assert MsgOk(route, s, m) && NotNewer(m, k, readTs, newest);
    if VersionAt(route, Receive(s, m), k, ts) != VersionAt(route, s, k, ts) {
      DeliveryTooLate(route, s, m, k, ts);
      if m.OneShotMsg? {
        LastKeys(m.writes, k);
        NewestSpec(VersionsOf(route, s, k), k, readTs);
        OneShotValue(route, s, m, k);
      }
      assert false;
    }
  }

  lemma SettledDelivery(route: Route, s: System, m: Msg, k: bytes, readTs: Ts, newest: Option<Ts>)
    requires Inv(route, s) && m in s.net && Settled(route, s, k, readTs, newest)
    ensures Settled(route, Receive(s, m), k, readTs, newest)
    ensures ReadAt(VersionsOf(route, Receive(s, m), k), k, readTs) == ReadAt(VersionsOf(route, s, k), k, readTs)
  {
    var s' := Receive(s, m);
    forall ts: Ts | ts <= readTs && (newest.Some? ==> newest.value <= ts)
      ensures VersionAt(route, s', k, ts) == VersionAt(route, s, k, ts) {
      SettledVersion(route, s, m, k, readTs, newest, ts);
    }
    SameFromSameAnswer(route, s, s', k, readTs);
    assert MsgOk(route, s, m);
    match m {
      case CommitMsg(_, _, _, _) => CommitDelivery(route, s, m, k);
      case AbortMsg(_, _, _) => AbortDelivery(route, s, m, k);
      case OneShotMsg(_, _, _, _) => OneShotDelivery(route, s, m, k);
    }
  }

  /** A step other than a delivery installs nothing, and only a transaction without a timestamp takes a lock. */
  lemma QuietStep(route: Route, s: System, step: Step, k: bytes)
    requires Enabled(route, s, step) && !step.DeliverStep?
    ensures forall ts: Ts :: VersionAt(route, Do(route, s, step), k, ts) == VersionAt(route, s, k, ts)
    ensures LockAt(route, Do(route, s, step), k) != LockAt(route, s, k) ==>
              var l := LockAt(route, Do(route, s, step), k);
              l.Some? && l.value.txn in Do(route, s, step).txns && Stamp(Do(route, s, step).txns[l.value.txn]).None?
    ensures forall m :: m in Do(route, s, step).net && m.OneShotMsg? && m !in s.net ==> m.ts > s.clock
  {
  }

  lemma SettledStep(route: Route, s: System, step: Step, k: bytes, readTs: Ts, newest: Option<Ts>)
    requires Inv(route, s) && Enabled(route, s, step) && Settled(route, s, k, readTs, newest)
    ensures Settled(route, Do(route, s, step), k, readTs, newest)
    ensures ReadAt(VersionsOf(route, Do(route, s, step), k), k, readTs) == ReadAt(VersionsOf(route, s, k), k, readTs)
  {
    if step.DeliverStep? {
      SettledDelivery(route, s, step.msg, k, readTs, newest);
    } else {
      QuietStep(route, s, step, k);
      SameFromSameAnswer(route, s, Do(route, s, step), k, readTs);
      assert LockOk(route, s, k);
      if LockAt(route, s, k).Some? { StepIsLater(route, s, step, LockAt(route, s, k).value.txn); }
      StepIsLater(route, s, step, []);
    }
  }

  lemma {:induction false} SettledExec(route: Route, s: System, steps: seq<Step>, k: bytes, readTs: Ts)
    requires Good(route, s) && Exec(route, s, steps).Some?
    requires Settled(route, s, k, readTs, Newest(route, s, k, readTs))
    ensures var s' := Exec(route, s, steps).value;
            && Settled(route, s', k, readTs, Newest(route, s, k, readTs))
            && ReadAt(VersionsOf(route, s', k), k, readTs) == ReadAt(VersionsOf(route, s, k), k, readTs)
  {
    if |steps| > 0 {
      var front := steps[..|steps| - 1];
      SettledExec(route, s, front, k, readTs);
      ExecGood(route, s, front);
      SettledStep(route, Exec(route, s, front).value, steps[|steps| - 1], k, readTs, Newest(route, s, k, readTs));
    }
  }

  lemma StableFrom(route: Route, s: System, s': System, k: bytes, readTs: Ts)
    requires Good(route, s) && Reaches(route, s, s') && readTs <= s.clock && LockAt(route, s, k) == None
    requires forall m :: !Late(route, s, k, readTs, m)
    ensures Newest(route, s', k, readTs) == Newest(route, s, k, readTs)
    ensures ReadAt(VersionsOf(route, s', k), k, readTs) == ReadAt(VersionsOf(route, s, k), k, readTs)
  {
    forall m | m in s.net ensures NotNewer(m, k, readTs, Newest(route, s, k, readTs)) {
      assert !Late(route, s, k, readTs, m);
    }
    var steps :| Exec(route, s, steps) == Some(s');
    SettledExec(route, s, steps, k, readTs);
  }

  /** The answer of a read not ahead of the clock never changes in the rest of the run, provided no one-shot write
      of the key is late: later reads are refused or answer the same. */
  lemma ReadStable(route: Route, run: seq<System>, i: nat, j: nat, k: bytes, readTs: Ts)
    requires IsRun(route, run) && i <= j < |run| && readTs <= run[i].clock && Answer(route, run[i], k, readTs).Value?
    requires forall m :: !Late(route, run[i], k, readTs, m)
    ensures Newest(route, run[j], k, readTs) == Newest(route, run[i], k, readTs)
    ensures Answer(route, run[j], k, readTs).Value? ==>
              Answer(route, run[j], k, readTs) == Answer(route, run[i], k, readTs)
  {
    RefusedExactly(route, run[i], k, readTs);
    RefusedExactly(route, run[j], k, readTs);
    RunInv(route, run, i);
    RunReaches(route, run, i, j);
    StableFrom(route, run[i], run[j], k, readTs);
  }

  // ---------- a late one-shot can always arrive ----------

  /** A late one-shot none of whose keys is locked changes the answer when it arrives. */
  lemma LateOneShotChangesRead(route: Route, s: System, m: Msg, k: bytes, readTs: Ts)
    requires Inv(route, s) && m in s.net && m.OneShotMsg? && k in Keys(m.writes) && m.ts <= readTs
    requires !Blocked(StoreOf(s, m.shard), m.writes, m.txn)
    requires !Reflects(route, s, k, readTs, m.ts)
    ensures Enabled(route, s, DeliverStep(m))
    ensures NewestTs(VersionsOf(route, Do(route, s, DeliverStep(m)), k), k, readTs) == Some(m.ts)
    ensures NewestTs(VersionsOf(route, s, k), k, readTs) != Some(m.ts)
  {
    var before, after := VersionsOf(route, s, k), VersionsOf(route, Receive(s, m), k);
    assert MsgOk(route, s, m);
    var w :| w in m.writes && w.key == k;
    assert route(w.key) in Shards(route, m.writes);
    InstallLast(before, m.writes, m.ts, k);
    NewestSpec(before, k, readTs);
    forall u: Ts | Version(k, u) in after && u <= readTs ensures u <= m.ts {
      if u != m.ts { InstallOther(before, m.writes, m.ts, Version(k, u)); }
    }
    assert IsNewest(after, k, readTs, m.ts);
    NewestUnique(after, k, readTs);
  }

  /** Locks are only given up, and the key's versions stay. */
  ghost predicate Frees(route: Route, s: System, s': System, k: bytes) {
    && (forall q :: LockAt(route, s', q).Some? ==> LockAt(route, s', q) == LockAt(route, s, q))
    && (forall ts: Ts :: VersionAt(route, s', k, ts) == VersionAt(route, s, k, ts))
    && s.net <= s'.net
  }

  /** A lock's holder can be brought to a decision without touching a store. */
  lemma DecideHolder(route: Route, s0: System, s: System, q: bytes) returns (s': System)
    requires Good(route, s) && Reaches(route, s0, s) && LockAt(route, s, q).Some? && s.clock < MAX_TS
    ensures Good(route, s') && Reaches(route, s0, s')
    ensures s'.stores == s.stores && s.net <= s'.net && s'.clock <= s.clock + 1
    ensures var u := LockAt(route, s, q).value.txn;
            u in s'.txns && (s'.txns[u].phase.Committed? || s'.txns[u].phase.Aborted?)
  {
    var u := LockAt(route, s, q).value.txn;
    assert LockOk(route, s, q);
    s' := s;
    if Pending(s, u) {
      ReachesNext(route, s0, s', PrepareFailStep(u, false));
      StepKeepsGood(route, s', PrepareFailStep(u, false));
      s' := Do(route, s', PrepareFailStep(u, false));
    } else {
      if s'.txns[u].phase.Preparing? {
        assert TxnOk(s.txns[u], s.clock);
        ReachesNext(route, s0, s', StampStep(u, s.clock + 1));
        StepKeepsGood(route, s', StampStep(u, s.clock + 1));
        s' := Do(route, s', StampStep(u, s.clock + 1));
      }
      if s'.txns[u].phase.Stamped? {
        ReachesNext(route, s0, s', DecideStep(u));
        StepKeepsGood(route, s', DecideStep(u));
        s' := Do(route, s', DecideStep(u));
      }
    }
  }

  /** The message that ends a decided holder's lock. */
  lemma EndingMsg(route: Route, s: System, q: bytes) returns (m: Msg)
    requires Good(route, s) && LockAt(route, s, q).Some?
    requires var u := LockAt(route, s, q).value.txn;
             u in s.txns && (s.txns[u].phase.Committed? || s.txns[u].phase.Aborted?)
    ensures m in s.net && !m.OneShotMsg? && m.key == q && m.shard == route(q) && m.txn == LockAt(route, s, q).value.txn
  {
    var u := LockAt(route, s, q).value.txn;
    var x := s.txns[u];
    assert LockOk(route, s, q) && Recorded(route, s, u);
    LastKeys(x.writes, q);
    var w :| w in x.writes && w.key == q;
    if x.phase.Committed? {
      m := CommitMsg(route(w.key), w.key, u, x.phase.ts);
      assert m in CommitMsgs(route, x.writes, u, x.phase.ts);
    } else {
      m := AbortMsg(route(w.key), w.key, u);
      assert m in AbortMsgs(route, x.writes, u);
    }
  }

  /** Every lock can be released. */
  lemma ReleaseLock(route: Route, s0: System, s: System, q: bytes, k: bytes) returns (s': System)
    requires Good(route, s) && Reaches(route, s0, s) && LockAt(route, s, q).Some? && s.clock < MAX_TS
    requires LockAt(route, s, k) == None
    ensures Good(route, s') && Reaches(route, s0, s') && s'.clock <= s.clock + 1
    ensures Frees(route, s, s', k) && LockAt(route, s', q) == None
  {
    var d := DecideHolder(route, s0, s, q);
    assert LockAt(route, d, q) == LockAt(route, s, q);
    var m := EndingMsg(route, d, q);
    ReachesNext(route, s0, d, DeliverStep(m));
    StepKeepsGood(route, d, DeliverStep(m));
    s' := Receive(d, m);
    EndingDelivery(route, d, m, q, k);
    SameStores(route, s, d, k);
  }

  lemma SameStores(route: Route, s: System, s': System, k: bytes)
    requires s'.stores == s.stores
    ensures LockAt(route, s', k) == LockAt(route, s, k)
    ensures forall ts: Ts :: VersionAt(route, s', k, ts) == VersionAt(route, s, k, ts)
    ensures forall p :: LockAt(route, s', p) == LockAt(route, s, p)
  {
  }

  lemma EndingDelivery(route: Route, s: System, m: Msg, q: bytes, k: bytes)
    requires !m.OneShotMsg? && m.key == q && m.shard == route(q) && q != k
    requires LockAt(route, s, q).Some? && m.txn == LockAt(route, s, q).value.txn
    ensures LockAt(route, Receive(s, m), q) == None
    ensures forall p :: p != q ==> LockAt(route, Receive(s, m), p) == LockAt(route, s, p)
    ensures forall ts: Ts :: VersionAt(route, Receive(s, m), k, ts) == VersionAt(route, s, k, ts)
  {
  }

  /** All of a one-shot's keys can be freed. */
  lemma {:induction false} Unblock(route: Route, s: System, ws: seq<Write>, k: bytes) returns (s': System)
    requires Good(route, s) && LockAt(route, s, k) == None && s.clock + |ws| <= MAX_TS
    ensures Good(route, s') && Reaches(route, s, s') && s'.clock <= s.clock + |ws| && Frees(route, s, s', k)
    ensures forall w :: w in ws ==> LockAt(route, s', w.key) == None
  {
    s' := s;
    if |ws| == 0 {
      ReachesSelf(route, s);
    } else {
      var front, w := ws[..|ws| - 1], ws[|ws| - 1];
      s' := Unblock(route, s, front, k);
      assert ws == front + [w];
      if LockAt(route, s', w.key).Some? {
        var m := s';
        s' := ReleaseLock(route, s, m, w.key, k);
        FreesTrans(route, s, m, s', k);
      }
    }
  }

  lemma FreesTrans(route: Route, a: System, b: System, c: System, k: bytes)
    requires Frees(route, a, b, k) && Frees(route, b, c, k)
    ensures Frees(route, a, c, k)
    ensures forall q :: LockAt(route, b, q) == None ==> LockAt(route, c, q) == None
  {
  }

  /** From any good state with an unlocked key, a late one-shot write of it can be made to arrive and changes
      the answer. The clock must leave room for the holders in its way to take their timestamps. */
  lemma LateArrives(route: Route, s: System, m: Msg, k: bytes, readTs: Ts) returns (s': System)
    requires Good(route, s) && LockAt(route, s, k) == None && Late(route, s, k, readTs, m)
    requires s.clock + |m.writes| <= MAX_TS
    ensures Reaches(route, s, s') && Newest(route, s', k, readTs) == Some(m.ts) != Newest(route, s, k, readTs)
  {
    var u := Unblock(route, s, m.writes, k);
    SameFromSameAnswer(route, s, u, k, readTs);
    assert MsgOk(route, u, m);
    forall w | w in m.writes ensures !LockedByOther(StoreOf(u, m.shard), w.key, m.txn) {
      assert route(w.key) in Shards(route, m.writes);
      assert LockAt(route, u, w.key) == None;
    }
    LateOneShotChangesRead(route, u, m, k, readTs);
    ReachesNext(route, s, u, DeliverStep(m));
    s' := Do(route, u, DeliverStep(m));
  }

  /** The clock leaves room for every key of every one-shot sent. */
  ghost predicate Room(s: System) {
    forall m :: m in s.net && m.OneShotMsg? ==> s.clock + |m.writes| <= MAX_TS
  }

  /** In every state of every run, the answer of an unblocked read not ahead of the clock is final if and only
      if no one-shot write of the key is late. */
  lemma ReadFinalExactly(route: Route, run: seq<System>, i: nat, k: bytes, readTs: Ts)
    requires IsRun(route, run) && i < |run| && readTs <= run[i].clock && Answer(route, run[i], k, readTs).Value?
    requires Room(run[i])
    ensures (forall s' :: Reaches(route, run[i], s') ==>
                            Newest(route, s', k, readTs) == Newest(route, run[i], k, readTs)) <==>
            (forall m :: !Late(route, run[i], k, readTs, m))
  {
    var s := run[i];
    RunInv(route, run, i);
    RefusedExactly(route, s, k, readTs);
    if m :| Late(route, s, k, readTs, m) {
      var s' := LateArrives(route, s, m, k, readTs);
    } else {
      forall s' | Reaches(route, s, s') ensures Newest(route, s', k, readTs) == Newest(route, s, k, readTs) {
        StableFrom(route, s, s', k, readTs);
      }
    }
  }

  /** The failing case occurs: for every list of writes to one shard and every key of it there is a run whose last
      state has a late one-shot write of the unlocked key. */
  lemma LateRun(route: Route, ws: seq<Write>, k: bytes) returns (run: seq<System>, readTs: Ts, m: Msg)
    requires |Shards(route, ws)| == 1 && k in Keys(ws)
    ensures IsRun(route, run)
    ensures var s := run[|run| - 1];
            readTs <= s.clock && LockAt(route, s, k) == None && Late(route, s, k, readTs, m) && m.writes == ws
  {
    var shard :| shard in Shards(route, ws);
    assert Shards(route, ws) == {shard} by { assert |Shards(route, ws) - {shard}| == 0; }
    var s := System(0, map[], map[], {}, {});
    var a := Aborts.AddWrites(route, s, [], ws);
    ReachesNext(route, s, a, OneShotStep([], shard, 1));
    var b := Do(route, a, OneShotStep([], shard, 1));
    readTs, m := 1, OneShotMsg(shard, ws, [], 1);
    NewestSpec(VersionsOf(route, b, k), k, readTs);
    var steps :| Exec(route, s, steps) == Some(b);
    run := ExecIsRun(route, s, steps);
  }
}
