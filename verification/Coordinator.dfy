/** The transaction coordinator's own code. Replies of the shards and the clock are parameters; the messages
    it sends are results. */
module Coordinator {
  import opened Bytes
  import opened Mvcc
  import opened Store
  import opened TwoPhase
  import Text

  datatype TxnState = StateActive | StateCommitted | StateAborted
  datatype Transaction = Transaction(state: TxnState, writes: seq<Write>)

  datatype Outcome =
    | NotActive           // unknown or already decided
    | NoOp                // nothing written
    | OneShotOk
    | OneShotError
    | PrepareError
    | CommitSent

  /** A traversal that met each of some of the shards once. */
  ghost predicate Visits(route: Route, ws: seq<Write>, order: seq<Shard>) {
    && (forall i, j :: 0 <= i < j < |order| ==> order[i] != order[j])
    && ShardSet(order) <= Shards(route, ws)
  }

  ghost function SetOf(ms: seq<Msg>): set<Msg> {
    set m | m in ms
  }

  /** "txn-" and the clock. */
  function TxnName(now: Ts): TxnId {
    [0x74, 0x78, 0x6E, 0x2D] + Text.Decimal(now)
  }

  /** Different readings of the clock give different ids. */
  lemma NamesAreNew(now: Ts)
    ensures forall past: Ts :: TxnName(past) == TxnName(now) <==> past == now
  {
    forall past: Ts ensures TxnName(past) == TxnName(now) <==> past == now {
      Text.ScanDecimal(past);
      Text.ScanDecimal(now);
      assert TxnName(past)[4..] == Text.Decimal(past) && TxnName(now)[4..] == Text.Decimal(now);
    }
  }

  class Coordinator {
    var transactions: map<TxnId, Transaction>
    const route: Route

    constructor (route: Route)
      ensures transactions == map[] && this.route == route
    {
      transactions := map[];
      this.route := route;
    }

    predicate IsActive(txn: TxnId)
      reads this
    {
      txn in transactions && transactions[txn].state == StateActive
    }

    /** Every known id was made from an earlier reading of the clock. */
    ghost predicate NamedBefore(now: Ts)
      reads this
    {
      forall id :: id in transactions ==> exists past: Ts :: past < now && id == TxnName(past)
    }

    /** The id is made from the clock; it is new as long as the clock moves forward. */
    method Begin(now: Ts) returns (id: TxnId)
      modifies this
      ensures id == [0x74, 0x78, 0x6E, 0x2D] + Text.Decimal(now)
      ensures transactions == old(transactions)[id := Transaction(StateActive, [])]
      ensures old(NamedBefore(now)) ==> id !in old(transactions)
      ensures old(NamedBefore(now)) ==> forall later: Ts :: now < later ==> NamedBefore(later)
    {
      id := TxnName(now);
      transactions := transactions[id := Transaction(StateActive, [])];
      NamesAreNew(now);
    }

    method AddWrite(txn: TxnId, key: bytes, value: bytes) returns (ok: bool)
      modifies this
      ensures ok == old(IsActive(txn))
      ensures !ok ==> transactions == old(transactions)
      ensures ok ==> var writes := old(transactions[txn].writes) + [Write(key, value)];
                     transactions == old(transactions)[txn := Transaction(StateActive, writes)]
    {
      if txn !in transactions || transactions[txn].state != StateActive {
        return false;
      }
      transactions := transactions[txn := transactions[txn].(writes := transactions[txn].writes + [Write(key, value)])];
      return true;
    }

    /** Marks the transaction aborted and sends an abort for every write, whatever its state was. */
    method Abort(txn: TxnId) returns (ok: bool, sent: seq<Msg>)
      modifies this
      ensures ok == (txn in old(transactions))
      ensures !ok ==> transactions == old(transactions) && sent == []
      ensures ok ==> transactions == old(transactions)[txn := old(transactions[txn]).(state := StateAborted)]
      ensures ok ==> sent == AbortEach(route, old(transactions[txn].writes), txn)
      ensures ok ==> |sent| == |old(transactions[txn].writes)|
    {
      if txn !in transactions {
        return false, [];
      }
      transactions := transactions[txn := transactions[txn].(state := StateAborted)];
      sent := SendAborts(route, transactions[txn].writes, txn);
      ok := true;
    }

    /** reply(i) is whether the i-th prepare was acknowledged and clock(n) what the clock shows after n replies;
        prepares are the writes prepared so far, the refused one included. */
    method Commit(txn: TxnId, reply: nat -> bool, oneShotOk: bool, clock: nat -> Ts)
      returns (result: Outcome, prepares: seq<Write>, order: seq<Shard>, sent: seq<Msg>)
      modifies this
      ensures result == NotActive <==> !old(IsActive(txn))
      ensures result == NotActive ==> prepares == [] && sent == []
      ensures result == NoOp <==> old(IsActive(txn) && transactions[txn].writes == [])
      ensures transactions ==
              match result
              case OneShotOk => old(transactions)[txn := old(transactions[txn]).(state := StateCommitted)]
              case CommitSent => old(transactions)[txn := old(transactions[txn]).(state := StateCommitted)]
              case OneShotError => old(transactions)[txn := old(transactions[txn]).(state := StateAborted)]
              case PrepareError => old(transactions)[txn := old(transactions[txn]).(state := StateAborted)]
              case _ => old(transactions)
      ensures old(IsActive(txn)) ==> CommitSpec(route, old(transactions[txn].writes), txn, reply, oneShotOk, clock,
                                                result, prepares, order, sent)
    {
      prepares, order, sent := [], [], [];
      if txn !in transactions || transactions[txn].state != StateActive {
        return NotActive, prepares, order, sent;
      }
      var writes := transactions[txn].writes;
      if |writes| == 0 {
        return NoOp, prepares, order, sent;
      }
      var groups := GroupByShard(route, writes);
      if |groups.Keys| == 1 {
        var sh :| sh in groups.Keys;
        Singleton(groups.Keys, sh);
        GroupWhole(route, writes, sh);
        sent := [OneShotMsg(sh, groups[sh], txn, clock(0))];
        if !oneShotOk {
          var ok, aborts := Abort(txn);
          return OneShotError, prepares, order, sent + aborts;
        }
        transactions := transactions[txn := transactions[txn].(state := StateCommitted)];
        return OneShotOk, prepares, order, sent;
      }
      var acked;
      acked, prepares, order := SendPrepares(route, writes, groups, reply);
      ShardsNonEmpty(route, writes);
      if !acked {
        var ok;
        ok, sent := Abort(txn);
        return PrepareError, prepares, order, sent;
      }
      transactions := transactions[txn := transactions[txn].(state := StateCommitted)];
      sent := SendCommits(route, writes, groups, txn, clock(|prepares|));
      EnumerationSize(order, groups.Keys);
      return CommitSent, prepares, order, sent;
    }
  }

  // ---------- the life of a transaction ----------

  /** A transaction just begun takes writes and then is not refused. */
  method BeginAccepts(c: Coordinator, now: Ts, key: bytes, value: bytes, reply: nat -> bool, oneShotOk: bool,
                      clock: nat -> Ts)
    returns (id: TxnId, added: bool, result: Outcome)
    modifies c
    ensures added && result != NotActive && result != NoOp
    ensures id in c.transactions && c.transactions[id].writes == [Write(key, value)]
    ensures c.transactions[id].state != StateActive
  {
    id := c.Begin(now);
    added := c.AddWrite(id, key, value);
    var prepares, order, sent;
    result, prepares, order, sent := c.Commit(id, reply, oneShotOk, clock);
  }

  /** After Commit, whatever its outcome on a transaction with writes, another Commit and another write are refused
      and change nothing. A commit without writes leaves the transaction active. */
  method CommitIsFinal(c: Coordinator, txn: TxnId, key: bytes, value: bytes, reply: nat -> bool, oneShotOk: bool,
                       clock: nat -> Ts)
    returns (first: Outcome, second: Outcome, sent: seq<Msg>, added: bool)
    modifies c
    ensures first != NoOp ==> second == NotActive && sent == [] && !added
    ensures first == NoOp ==> second == NoOp && sent == [] && added
    ensures first == NotActive ==> c.transactions == old(c.transactions)
    ensures first != NotActive ==> txn in old(c.transactions)
    ensures first.OneShotOk? || first.CommitSent? ==>
              c.transactions == old(c.transactions)[txn := old(c.transactions[txn]).(state := StateCommitted)]
    ensures first.OneShotError? || first.PrepareError? ==>
              c.transactions == old(c.transactions)[txn := old(c.transactions[txn]).(state := StateAborted)]
  {
    var prepares, order, messages;
    first, prepares, order, messages := c.Commit(txn, reply, oneShotOk, clock);
    second, prepares, order, sent := c.Commit(txn, reply, oneShotOk, clock);
    added := c.AddWrite(txn, key, value);
  }

  /** After Abort of a known transaction, commits and writes are refused and change nothing; an unknown one stays
      unknown. */
  method AbortIsFinal(c: Coordinator, txn: TxnId, key: bytes, value: bytes, reply: nat -> bool, oneShotOk: bool,
                      clock: nat -> Ts)
    returns (ok: bool, result: Outcome, sent: seq<Msg>, added: bool)
    modifies c
    ensures ok == (txn in old(c.transactions)) && result == NotActive && sent == [] && !added
    ensures c.transactions ==
            if ok then old(c.transactions)[txn := old(c.transactions[txn]).(state := StateAborted)]
            else old(c.transactions)
  {
    var aborts, prepares, order;
    ok, aborts := c.Abort(txn);
    result, prepares, order, sent := c.Commit(txn, reply, oneShotOk, clock);
    added := c.AddWrite(txn, key, value);
  }

  /** The first n prepares were acknowledged. */
  ghost predicate Acked(reply: nat -> bool, n: nat) {
    forall i :: 0 <= i < n ==> reply(i)
  }

  /** Prepares went out in queue order up to and including the first refused one. */
  ghost predicate Refused(prepares: seq<Write>, queue: seq<Write>, reply: nat -> bool) {
    prepares <= queue && |prepares| > 0 && !reply(|prepares| - 1) && Acked(reply, |prepares| - 1)
  }

  /** What an active transaction's Commit sends. */
  ghost predicate CommitSpec(route: Route, ws: seq<Write>, txn: TxnId, reply: nat -> bool, oneShotOk: bool,
                             clock: nat -> Ts, result: Outcome, prepares: seq<Write>, order: seq<Shard>, sent: seq<Msg>)
  {
    match result
    case NotActive => false
    case NoOp => ws == [] && prepares == [] && sent == []
    case OneShotOk =>
      && oneShotOk && prepares == []
      && exists sh :: Shards(route, ws) == {sh} && sent == [OneShotMsg(sh, ws, txn, clock(0))]
    case OneShotError =>
      && !oneShotOk && prepares == []
      && exists sh :: Shards(route, ws) == {sh} &&
                      sent == [OneShotMsg(sh, ws, txn, clock(0))] + AbortEach(route, ws, txn)
    case PrepareError =>
      && |Shards(route, ws)| > 1 && Visits(route, ws, order) && Refused(prepares, Queue(route, ws, order), reply)
      && sent == AbortEach(route, ws, txn)
    case CommitSent =>
      && |order| > 1 && Enumerates(route, ws, order) && prepares == Queue(route, ws, order) && Acked(reply, |prepares|)
      && SetOf(sent) == CommitMsgs(route, ws, txn, clock(|prepares|)) && |sent| == |ws|
  }

  // ---------- the loops ----------

  /** One abort per write, in write order. */
  function AbortEach(route: Route, ws: seq<Write>, txn: TxnId): seq<Msg> {
    seq(|ws|, i requires 0 <= i < |ws| => AbortMsg(route(ws[i].key), ws[i].key, txn))
  }

  lemma AbortEachSet(route: Route, ws: seq<Write>, txn: TxnId)
    ensures SetOf(AbortEach(route, ws, txn)) == AbortMsgs(route, ws, txn)
  {
    var ms := AbortEach(route, ws, txn);
    forall w | w in ws ensures AbortMsg(route(w.key), w.key, txn) in ms {
      var i :| 0 <= i < |ws| && ws[i] == w;
      assert ms[i] == AbortMsg(route(w.key), w.key, txn);
    }
  }

  method SendAborts(route: Route, writes: seq<Write>, txn: TxnId) returns (sent: seq<Msg>)
    ensures sent == AbortEach(route, writes, txn)
    ensures |sent| == |writes|
    ensures forall i :: 0 <= i < |writes| ==> sent[i] == AbortMsg(route(writes[i].key), writes[i].key, txn)
    ensures SetOf(sent) == AbortMsgs(route, writes, txn)
  {
    sent := [];
    for i := 0 to |writes|
      invariant sent == AbortEach(route, writes, txn)[..i]
    {
      sent := sent + [AbortMsg(route(writes[i].key), writes[i].key, txn)];
    }
    AbortEachSet(route, writes, txn);
  }

  /** Groups the writes by shard, in write order within each shard. */
  method GroupByShard(route: Route, writes: seq<Write>) returns (groups: map<Shard, seq<Write>>)
    ensures groups.Keys == Shards(route, writes)
    ensures forall sh :: sh in groups ==> groups[sh] == Group(route, writes, sh)
  {
    groups := map[];
    for i := 0 to |writes|
      invariant groups.Keys == Shards(route, writes[..i])
      invariant forall sh :: sh in groups ==> groups[sh] == Group(route, writes[..i], sh)
      invariant forall sh :: sh !in groups ==> Group(route, writes[..i], sh) == []
    {
      GroupNext(route, writes, i);
      var sh := route(writes[i].key);
      groups := groups[sh := (if sh in groups then groups[sh] else []) + [writes[i]]];
    }
    assert writes[..|writes|] == writes;
  }

  /** Phase one: prepare shard by shard until a prepare is refused. */
  method SendPrepares(route: Route, writes: seq<Write>, groups: map<Shard, seq<Write>>, reply: nat -> bool)
    returns (acked: bool, prepares: seq<Write>, order: seq<Shard>)
    requires groups.Keys == Shards(route, writes)
    requires forall sh :: sh in groups ==> groups[sh] == Group(route, writes, sh)
    ensures acked ==> Enumerates(route, writes, order) && prepares == Queue(route, writes, order)
    ensures acked ==> Acked(reply, |prepares|)
    ensures !acked ==> Visits(route, writes, order) && Refused(prepares, Queue(route, writes, order), reply)
  {
    prepares, order := [], [];
    var rest := groups.Keys;
    while rest != {}
      invariant Visits(route, writes, order)
      invariant rest !! ShardSet(order) && rest + ShardSet(order) == groups.Keys
      invariant prepares == Queue(route, writes, order)
      invariant Acked(reply, |prepares|)
      decreases rest
    {
      var sh :| sh in rest;
      VisitNext(route, writes, order, sh);
      order := order + [sh];
      rest := rest - {sh};
      acked, prepares := PrepareGroup(prepares, groups[sh], reply);
      if !acked {
        return;
      }
    }
    assert ShardSet(order) == groups.Keys;
    acked := true;
  }

  /** The prepares of one shard. */
  method PrepareGroup(before: seq<Write>, group: seq<Write>, reply: nat -> bool)
    returns (acked: bool, prepares: seq<Write>)
    requires Acked(reply, |before|)
    ensures acked ==> prepares == before + group && Acked(reply, |prepares|)
    ensures !acked ==> Refused(prepares, before + group, reply)
  {
    prepares := before;
    for i := 0 to |group|
      invariant prepares == before + group[..i]
      invariant Acked(reply, |prepares|)
    {
      prepares := prepares + [group[i]];
      assert prepares == before + group[..i + 1];
      if !reply(|prepares| - 1) {
        return false, prepares;
      }
    }
    acked := true;
  }

  /** Phase two: a commit for every write, shard by shard. */
  method SendCommits(route: Route, writes: seq<Write>, groups: map<Shard, seq<Write>>, txn: TxnId, now: Ts)
    returns (sent: seq<Msg>)
    requires groups.Keys == Shards(route, writes)
    requires forall sh :: sh in groups ==> groups[sh] == Group(route, writes, sh)
    ensures SetOf(sent) == CommitMsgs(route, writes, txn, now) && |sent| == |writes|
  {
    sent := [];
    var rest := groups.Keys;
    CountAll(route, writes, rest);
    while rest != {}
      invariant rest <= groups.Keys
      invariant SetOf(sent) == CommitsOutside(route, writes, rest, txn, now)
      invariant |sent| == CountOutside(route, writes, rest)
      decreases rest
    {
      var sh :| sh in rest;
      CommitsShrink(route, writes, rest, sh, txn, now);
      CountShrinks(route, writes, rest, sh);
      GroupOnShard(route, writes, sh);
      rest := rest - {sh};
      sent := CommitGroup(route, sh, groups[sh], txn, now, sent);
    }
    CountAll(route, writes, rest);
  }

  /** The commits of one shard. */
  method CommitGroup(route: Route, sh: Shard, group: seq<Write>, txn: TxnId, now: Ts, before: seq<Msg>)
    returns (sent: seq<Msg>)
    requires forall w :: w in group ==> route(w.key) == sh
    ensures SetOf(sent) == SetOf(before) + CommitMsgs(route, group, txn, now) && |sent| == |before| + |group|
  {
    sent := before;
    for i := 0 to |group|
      invariant |sent| == |before| + i
      invariant SetOf(sent) == SetOf(before) + CommitMsgs(route, group[..i], txn, now)
    {
      assert group[i] in group;
      CommitMsgsNext(route, group, i, txn, now);
      SetOfSnoc(sent, CommitMsg(sh, group[i].key, txn, now));
      sent := sent + [CommitMsg(sh, group[i].key, txn, now)];
    }
    assert group[..|group|] == group;
  }

  lemma GroupOnShard(route: Route, ws: seq<Write>, sh: Shard)
    ensures forall w :: w in Group(route, ws, sh) ==> route(w.key) == sh
  {
    forall w | w in Group(route, ws, sh) ensures route(w.key) == sh { GroupRoute(route, ws, sh, w); }
  }

  /** The commits of the writes outside the shards still to be served. */
  ghost function CommitsOutside(route: Route, ws: seq<Write>, rest: set<Shard>, txn: TxnId, ts: Ts): set<Msg> {
    set w | w in ws && route(w.key) !in rest :: CommitMsg(route(w.key), w.key, txn, ts)
  }

  /** How many writes lie outside the shards still to be served. */
  ghost function CountOutside(route: Route, ws: seq<Write>, rest: set<Shard>): nat {
    if |ws| == 0 then 0
    else CountOutside(route, ws[..|ws| - 1], rest) + (if route(ws[|ws| - 1].key) in rest then 0 else 1)
  }

  lemma {:induction false} CountAll(route: Route, ws: seq<Write>, rest: set<Shard>)
    ensures rest == {} ==> CountOutside(route, ws, rest) == |ws|
    ensures Shards(route, ws) <= rest ==> CountOutside(route, ws, rest) == 0
  {
    if |ws| > 0 {
      CountAll(route, ws[..|ws| - 1], rest);
      assert ws[|ws| - 1] in ws && forall w :: w in ws[..|ws| - 1] ==> w in ws;
    }
  }

  lemma {:induction false} CountShrinks(route: Route, ws: seq<Write>, rest: set<Shard>, sh: Shard)
    requires sh in rest
    ensures CountOutside(route, ws, rest - {sh}) == CountOutside(route, ws, rest) + |Group(route, ws, sh)|
  {
    if |ws| > 0 { CountShrinks(route, ws[..|ws| - 1], rest, sh); }
  }

  lemma CommitsShrink(route: Route, ws: seq<Write>, rest: set<Shard>, sh: Shard, txn: TxnId, ts: Ts)
    requires sh in rest
    ensures CommitsOutside(route, ws, rest - {sh}, txn, ts) ==
            CommitsOutside(route, ws, rest, txn, ts) + CommitMsgs(route, Group(route, ws, sh), txn, ts)
  {
    forall w { GroupRoute(route, ws, sh, w); }
  }

  lemma SetOfSnoc(ms: seq<Msg>, m: Msg)
    ensures SetOf(ms + [m]) == SetOf(ms) + {m}
  {
  }

  lemma VisitNext(route: Route, ws: seq<Write>, order: seq<Shard>, sh: Shard)
    requires Visits(route, ws, order) && sh in Shards(route, ws) && sh !in order
    ensures Visits(route, ws, order + [sh])
    ensures ShardSet(order + [sh]) == ShardSet(order) + {sh}
    ensures Queue(route, ws, order + [sh]) == Queue(route, ws, order) + Group(route, ws, sh)
  {
    assert (order + [sh])[..|order|] == order;
  }

  lemma ShardsNonEmpty(route: Route, ws: seq<Write>)
    requires |ws| > 0
    ensures |Shards(route, ws)| > 0
  {
    assert ws[0] in ws && route(ws[0].key) in Shards(route, ws);
  }

  // ---------- messages and groups, one write at a time ----------

  lemma CommitMsgsNext(route: Route, ws: seq<Write>, i: nat, txn: TxnId, ts: Ts)
    requires i < |ws|
    ensures CommitMsgs(route, ws[..i + 1], txn, ts) ==
            CommitMsgs(route, ws[..i], txn, ts) + {CommitMsg(route(ws[i].key), ws[i].key, txn, ts)}
  {
    assert ws[..i + 1] == ws[..i] + [ws[i]];
  }

  lemma GroupNext(route: Route, ws: seq<Write>, i: nat)
    requires i < |ws|
    ensures Shards(route, ws[..i + 1]) == Shards(route, ws[..i]) + {route(ws[i].key)}
    ensures forall sh :: Group(route, ws[..i + 1], sh) ==
                         Group(route, ws[..i], sh) + (if route(ws[i].key) == sh then [ws[i]] else [])
  {
    assert ws[..i + 1] == ws[..i] + [ws[i]];
    assert ws[..i + 1][..i] == ws[..i];
  }

  lemma {:induction false} GroupRoute(route: Route, ws: seq<Write>, sh: Shard, w: Write)
    ensures w in Group(route, ws, sh) <==> w in ws && route(w.key) == sh
  {
    if |ws| > 0 {
      GroupRoute(route, ws[..|ws| - 1], sh, w);
      assert ws == ws[..|ws| - 1] + [ws[|ws| - 1]];
    }
  }

  lemma {:induction false} GroupWhole(route: Route, ws: seq<Write>, sh: Shard)
    requires Shards(route, ws) <= {sh}
    ensures Group(route, ws, sh) == ws
  {
    if |ws| > 0 {
      var front, w := ws[..|ws| - 1], ws[|ws| - 1];
      assert w in ws && route(w.key) in Shards(route, ws);
      assert forall x :: x in front ==> x in ws;
      GroupWhole(route, front, sh);
      assert ws == front + [w];
    }
  }

  lemma Singleton(s: set<Shard>, x: Shard)
    requires x in s && |s| == 1
    ensures s == {x}
  {
    assert |s - {x}| == 0;
  }

  /** An enumeration has as many entries as the set. */
  lemma {:induction false} EnumerationSize(order: seq<Shard>, s: set<Shard>)
    requires forall i, j :: 0 <= i < j < |order| ==> order[i] != order[j]
    requires ShardSet(order) == s
    ensures |order| == |s|
  {
    if |order| == 0 {
      assert s == {};
    } else {
      var front, o := order[..|order| - 1], order[|order| - 1];
      assert order == front + [o];
      assert ShardSet(front) == s - {o};
      EnumerationSize(front, s - {o});
    }
  }
}
