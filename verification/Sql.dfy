/** SQL plans over the storage engine: the table scan, the point read and the insert. */
module Sql {
  import opened Bytes
  import opened Mvcc
  import opened Tree
  import S = Store
  import opened SeekRead
  import opened RangeScan
  import M = MemoryStore
  import Text

  datatype Row = Row(key: bytes, value: bytes)

  const COLON: byte := 0x3A

  /** "table:" */
  function Prefix(table: bytes): bytes {
    table + [COLON]
  }

  /** The scan's end: "table:" followed by 0xFF. */
  function ScanEnd(table: bytes): bytes {
    Prefix(table) + [0xFF]
  }

  /** What follows the first colon, or the whole key without one. */
  function RealKey(key: bytes): bytes {
    match AfterColon(key)
    case Some(rest) => rest
    case None => key
  }

  function AfterColon(key: bytes): Option<bytes> {
    if |key| == 0 then None
    else if key[0] == COLON then Some(key[1..])
    else AfterColon(key[1..])
  }

  /** The scan's accumulator. */
  datatype Seen = Seen(rows: seq<Row>, keys: set<bytes>)

  predicate Visible(table: bytes, x: Item, readTs: Ts) {
    Prefix(table) <= UserKey(x) && TsOf(x) <= readTs
  }

  /** The scan's callback on one item. */
  function Visit(acc: Seen, table: bytes, x: Item, readTs: Ts): Seen {
    if !Visible(table, x, readTs) || UserKey(x) in acc.keys then acc
    else Seen(acc.rows + [Row(RealKey(UserKey(x)), x.value)], acc.keys + {UserKey(x)})
  }

  function VisitAll(items: Tree, table: bytes, readTs: Ts): Seen {
    if |items| == 0 then Seen([], {})
    else Visit(VisitAll(items[..|items| - 1], table, readTs), table, items[|items| - 1], readTs)
  }

  function ScanRows(t: Tree, table: bytes, readTs: Ts): seq<Row> {
    VisitAll(ScanItems(t, Prefix(table), Some(ScanEnd(table))), table, readTs).rows
  }

  method ExecuteScan(engine: M.MemoryStore, table: bytes, readTs: Ts) returns (rows: seq<Row>)
    requires engine.Valid()
    ensures rows == ScanRows(engine.tree, table, readTs)
  {
    var items := engine.Scan(Prefix(table), Some(ScanEnd(table)), _ => true);
    HandedAll(ScanItems(engine.tree, Prefix(table), Some(ScanEnd(table))));
    rows := [];
    var seenKeys: set<bytes> := {};
    for i := 0 to |items|
      invariant Seen(rows, seenKeys) == VisitAll(items[..i], table, readTs)
    {
      VisitNext(items, i, table, readTs);
      var version := Decode(items[i].key);
      if !(Prefix(table) <= version.key) || version.key in seenKeys {
        continue;
      }
      if version.ts <= readTs {
        rows := rows + [Row(RealKey(version.key), items[i].value)];
        seenKeys := seenKeys + {version.key};
      }
    }
    assert items[..|items|] == items;
  }

  lemma VisitNext(items: Tree, i: nat, table: bytes, readTs: Ts)
    requires i < |items|
    ensures VisitAll(items[..i + 1], table, readTs) ==
            Visit(VisitAll(items[..i], table, readTs), table, items[i], readTs)
  {
    assert items[..i + 1][..i] == items[..i];
  }

  // ---------- the row key ----------

  /** The row shows the primary key, for every primary key, if and only if the table name has no colon. */
  lemma {:induction false} RealKeyIsPrimaryKey(table: bytes, pk: bytes)
    ensures RealKey(Prefix(table) + pk) == pk <==> COLON !in table
  {
    var k := Prefix(table) + pk;
    FirstColon(table, pk);
  }

  lemma {:induction false} FirstColon(table: bytes, pk: bytes)
    ensures AfterColon(Prefix(table) + pk).Some?
    ensures COLON !in table ==> AfterColon(Prefix(table) + pk) == Some(pk)
    ensures COLON in table ==> |AfterColon(Prefix(table) + pk).value| > |pk|
  {
    var k := Prefix(table) + pk;
    if |table| == 0 {
      assert k[1..] == pk;
    } else {
      assert k[1..] == Prefix(table[1..]) + pk;
      assert table == [table[0]] + table[1..];
      if table[0] != COLON { FirstColon(table[1..], pk); }
    }
  }

  // ---------- the rows are the newest visible versions ----------

  /** One row per primary key with a visible version, carrying the newest such version. */
  ghost predicate ExactRows(rows: seq<Row>, m: map<Version, bytes>, table: bytes, readTs: Ts) {
    && (forall r :: r in rows ==> S.ReadAt(m, Prefix(table) + r.key, readTs) == Some(r.value))
    && (forall pk :: S.ReadAt(m, Prefix(table) + pk, readTs).Some? ==> HasRow(rows, pk))
    && (forall i, j :: 0 <= i < j < |rows| ==> rows[i].key != rows[j].key)
  }

  ghost predicate HasRow(rows: seq<Row>, pk: bytes) {
    exists r :: r in rows && r.key == pk
  }

  /** The last item of a sorted tree is older than every other version of its key: it answers a read only
      when no other version does. */
  lemma SnocRead(t: Tree, key: bytes, readTs: Ts)
    requires WellFormed(t) && |t| > 0
    ensures var front, x := t[..|t| - 1], t[|t| - 1];
            && WellFormed(front)
            && S.ReadAt(View(t), key, readTs) ==
               if S.ReadAt(View(front), key, readTs).None? && UserKey(x) == key && TsOf(x) <= readTs then Some(x.value)
               else S.ReadAt(View(front), key, readTs)
  {
    var front, x := t[..|t| - 1], t[|t| - 1];
    SnocView(t, Decode(x.key));
    if UserKey(x) != key || TsOf(x) > readTs {
      forall u: Ts | u <= readTs
        ensures Version(key, u) in View(front) <==> Version(key, u) in View(t)
        ensures Version(key, u) in View(front) ==> View(front)[Version(key, u)] == View(t)[Version(key, u)] {
        SnocView(t, Version(key, u));
      }
      S.ReadFrame(View(front), View(t), key, readTs);
    } else if S.NewestTs(View(front), key, readTs).Some? {
      SnocOlder(t, key, readTs);
    } else {
      SnocOnly(t, key, readTs);
    }
  }

  lemma SnocOlder(t: Tree, key: bytes, readTs: Ts)
    requires WellFormed(t) && |t| > 0 && UserKey(t[|t| - 1]) == key
    requires S.NewestTs(View(t[..|t| - 1]), key, readTs).Some?
    ensures S.ReadAt(View(t), key, readTs) == S.ReadAt(View(t[..|t| - 1]), key, readTs)
  {
    var front, x := t[..|t| - 1], t[|t| - 1];
    SnocView(t, Decode(x.key));
    S.NewestSpec(View(front), key, readTs);
    var ts := S.NewestTs(View(front), key, readTs).value;
    var p := PositionOf(front, Version(key, ts));
    assert t[p] == front[p];
    SameKeyDescends(t, p, |t| - 1);
    forall u: Ts | Version(key, u) in View(t) && u <= readTs ensures u <= ts {
      SnocView(t, Version(key, u));
    }
    SnocView(t, Version(key, ts));
    assert S.IsNewest(View(t), key, readTs, ts);
    S.NewestUnique(View(t), key, readTs);
  }

  lemma SnocOnly(t: Tree, key: bytes, readTs: Ts)
    requires WellFormed(t) && |t| > 0 && UserKey(t[|t| - 1]) == key && TsOf(t[|t| - 1]) <= readTs
    requires S.NewestTs(View(t[..|t| - 1]), key, readTs).None?
    ensures S.ReadAt(View(t), key, readTs) == Some(t[|t| - 1].value)
  {
    var x := t[|t| - 1];
    assert x in t;
    ItemInView(t, x);
    S.NewestSpec(View(t[..|t| - 1]), key, readTs);
    forall u: Ts | Version(key, u) in View(t) && u <= readTs ensures u <= TsOf(x) {
      SnocView(t, Version(key, u));
    }
    assert S.IsNewest(View(t), key, readTs, TsOf(x));
    S.NewestUnique(View(t), key, readTs);
  }

  lemma SnocView(t: Tree, w: Version)
    requires WellFormed(t) && |t| > 0
    ensures var front, x := t[..|t| - 1], t[|t| - 1];
            && WellFormed(front)
            && (w in View(t) <==> w in View(front) || w == Decode(x.key))
            && (w in View(front) ==> View(t)[w] == View(front)[w])
  {
    var front, x := t[..|t| - 1], t[|t| - 1];
    assert t == front + [x];
    ViewMember(t, w);
    ViewMember(front, w);
    if w in View(front) {
      DecodeEncode(w.key, w.ts);
      ItemInView(t, Item(Encode(w.key, w.ts), View(front)[w]));
    }
    if w == Decode(x.key) { ItemInView(t, x); }
  }

  /** The keys seen are those of the rows. */
  ghost predicate KeysMatch(acc: Seen, table: bytes) {
    forall pk :: Prefix(table) + pk in acc.keys <==> HasRow(acc.rows, pk)
  }

  /** Visiting a sorted list of items yields exact rows of what the list stores. */
  lemma {:induction false} VisitExact(items: Tree, table: bytes, readTs: Ts)
    requires WellFormed(items) && COLON !in table
    ensures ExactRows(VisitAll(items, table, readTs).rows, View(items), table, readTs)
    ensures KeysMatch(VisitAll(items, table, readTs), table)
  {
    if |items| == 0 {
      forall pk ensures S.ReadAt(View(items), Prefix(table) + pk, readTs).None? {
        S.NewestSpec(View(items), Prefix(table) + pk, readTs);
      }
    } else {
      var front, x := items[..|items| - 1], items[|items| - 1];
      SnocRead(items, UserKey(x), readTs);
      VisitExact(front, table, readTs);
      var acc := VisitAll(front, table, readTs);
      if Visible(table, x, readTs) && UserKey(x) !in acc.keys {
        NewRowExact(items, table, readTs, acc);
      } else {
        NoRowExact(items, table, readTs, acc);
      }
    }
  }

  /** An item that adds no row changes no answer. */
  lemma NoRowExact(items: Tree, table: bytes, readTs: Ts, acc: Seen)
    requires WellFormed(items) && |items| > 0 && KeysMatch(acc, table)
    requires var front, x := items[..|items| - 1], items[|items| - 1];
             ExactRows(acc.rows, View(front), table, readTs) && !(Visible(table, x, readTs) && UserKey(x) !in acc.keys)
    ensures ExactRows(acc.rows, View(items), table, readTs)
  {
    var front, x := items[..|items| - 1], items[|items| - 1];
    forall pk
      ensures S.ReadAt(View(items), Prefix(table) + pk, readTs) == S.ReadAt(View(front), Prefix(table) + pk, readTs) {
      var k := Prefix(table) + pk;
      SnocRead(items, k, readTs);
      if UserKey(x) == k && TsOf(x) <= readTs {
        var r :| r in acc.rows && r.key == pk;
      }
    }
  }

  /** An item that adds a row is the newest visible version of its key. */
  lemma NewRowExact(items: Tree, table: bytes, readTs: Ts, acc: Seen)
    requires WellFormed(items) && |items| > 0 && KeysMatch(acc, table) && COLON !in table
    requires var front, x := items[..|items| - 1], items[|items| - 1];
             ExactRows(acc.rows, View(front), table, readTs) && Visible(table, x, readTs) && UserKey(x) !in acc.keys
    ensures var acc' := Visit(acc, table, items[|items| - 1], readTs);
            ExactRows(acc'.rows, View(items), table, readTs) && KeysMatch(acc', table)
  {
    var p := Prefix(table);
    var front, x := items[..|items| - 1], items[|items| - 1];
    var pk := UserKey(x)[|p|..];
    assert UserKey(x) == p + pk;
    RealKeyIsPrimaryKey(table, pk);
    var row := Row(pk, x.value);
    AddRow(acc.rows, row);
    assert !HasRow(acc.rows, pk);
    forall q
      ensures S.ReadAt(View(items), p + q, readTs) ==
              if q == pk then Some(x.value) else S.ReadAt(View(front), p + q, readTs) {
      SnocRead(items, p + q, readTs);
      PrefixInjective(p, q, pk);
    }
    forall q ensures p + q in acc.keys + {p + pk} <==> HasRow(acc.rows + [row], q) {
      PrefixInjective(p, q, pk);
    }
  }

  lemma PrefixInjective(p: bytes, a: bytes, b: bytes)
    ensures p + a == p + b <==> a == b
  {
    if p + a == p + b { assert (p + a)[|p|..] == a && (p + b)[|p|..] == b; }
  }

  lemma AddRow(rows: seq<Row>, r: Row)
    ensures forall pk :: HasRow(rows + [r], pk) <==> HasRow(rows, pk) || pk == r.key
    ensures forall x :: x in rows + [r] <==> x in rows || x == r
  {
    forall pk ensures HasRow(rows + [r], pk) <==> HasRow(rows, pk) || pk == r.key {
      if HasRow(rows, pk) { var x :| x in rows && x.key == pk; assert x in rows + [r]; }
      if pk == r.key { assert r in rows + [r]; }
    }
  }

  // ---------- the order of the rows ----------

  /** The rows stem from items at ascending positions of the traversal. */
  ghost predicate Follows(rows: seq<Row>, items: Tree, table: bytes, at: seq<nat>) {
    && |at| == |rows|
    && (forall i :: 0 <= i < |at| ==> at[i] < |items| && IsRowOf(rows[i], items[at[i]], table))
    && (forall i, j :: 0 <= i < j < |at| ==> at[i] < at[j])
  }

  ghost predicate IsRowOf(r: Row, x: Item, table: bytes) {
    Prefix(table) <= UserKey(x) && r == Row(RealKey(UserKey(x)), x.value)
  }

  /** The scan returns its rows in the order of the traversal. */
  lemma {:induction false} RowsFollow(items: Tree, table: bytes, readTs: Ts) returns (at: seq<nat>)
    ensures Follows(VisitAll(items, table, readTs).rows, items, table, at)
  {
    at := [];
    if |items| > 0 {
      var front, x := items[..|items| - 1], items[|items| - 1];
      var acc := VisitAll(front, table, readTs);
      at := RowsFollow(front, table, readTs);
      FollowsMore(acc.rows, items, table, at);
      if Visible(table, x, readTs) && UserKey(x) !in acc.keys {
        at := at + [|items| - 1];
      }
    }
  }

  lemma FollowsMore(rows: seq<Row>, items: Tree, table: bytes, at: seq<nat>)
    requires |items| > 0 && Follows(rows, items[..|items| - 1], table, at)
    ensures Follows(rows, items, table, at) && forall i :: 0 <= i < |at| ==> at[i] < |items| - 1
  {
  }

  /** When the traversal meets user keys in ascending order, the rows ascend by primary key. */
  lemma RowsAscend(t: Tree, table: bytes, readTs: Ts, i: nat, j: nat)
    requires WellFormed(t) && COLON !in table && KeysAscend(t)
    requires i < j < |ScanRows(t, table, readTs)|
    ensures Less(ScanRows(t, table, readTs)[i].key, ScanRows(t, table, readTs)[j].key)
  {
    var lo, hi := ScanWindow(t, Prefix(table), Some(ScanEnd(table)));
    var items, rows := t[lo..hi], ScanRows(t, table, readTs);
    ScanSound(t, Prefix(table), Some(ScanEnd(table)));
    VisitExact(items, table, readTs);
    var at := RowsFollow(items, table, readTs);
    var x, y := items[at[i]], items[at[j]];
    assert x == t[lo + at[i]] && y == t[lo + at[j]];
    RowOrder(rows[i], rows[j], x, y, table);
  }

  lemma RowOrder(r: Row, q: Row, x: Item, y: Item, table: bytes)
    requires COLON !in table && IsRowOf(r, x, table) && IsRowOf(q, y, table)
    requires AtMost(UserKey(x), UserKey(y)) && r.key != q.key
    ensures Less(r.key, q.key)
  {
    var p := Prefix(table);
    var a, b := UserKey(x)[|p|..], UserKey(y)[|p|..];
    assert UserKey(x) == p + a && UserKey(y) == p + b;
    RealKeyIsPrimaryKey(table, a);
    RealKeyIsPrimaryKey(table, b);
    LessCommonPrefix(p, b, a);
    LessTotal(a, b);
  }

  // ---------- the scan against the point read ----------

  /** No stored key continues the table prefix with the byte 0xFF. */
  ghost predicate NoHighKey(m: map<Version, bytes>, table: bytes) {
    forall v :: v in m ==> !(ScanEnd(table) <= v.key)
  }

  /** Among the keys with a prefix, those at or past the prefix followed by 0xFF are those that continue so. */
  lemma PastIsHigh(table: bytes, k: bytes)
    requires Prefix(table) <= k
    ensures Past(k, Some(ScanEnd(table))) <==> ScanEnd(table) <= k
    ensures AtMost(Prefix(table), k)
  {
    var p := Prefix(table);
    var r := k[|p|..];
    assert k == p + r;
    LessCommonPrefix(p, r, [0xFF]);
    LessCommonPrefix(p, r, []);
    assert p + [] == p;
    assert Less(r, [0xFF]) <==> |r| == 0 || r[0] < 0xFF;
    assert ScanEnd(table) <= k <==> |r| > 0 && r[0] == 0xFF;
  }

  /** Without high keys the scan range covers every version of the table's keys. */
  lemma ScanCovers(t: Tree, table: bytes, x: Item)
    requires WellFormed(t) && NoHighKey(View(t), table) && x in t && Prefix(table) <= UserKey(x)
    ensures x in ScanItems(t, Prefix(table), Some(ScanEnd(table)))
  {
    ItemInView(t, x);
    PastIsHigh(table, UserKey(x));
    if x !in ScanItems(t, Prefix(table), Some(ScanEnd(table))) {
      var y := ScanMiss(t, Prefix(table), Some(ScanEnd(table)), x);
      ItemInView(t, y);
      PastIsHigh(table, UserKey(y));
      assert false;
    }
  }

  /** The scanned items answer reads of the table's keys as the whole tree does. */
  lemma ScannedReads(t: Tree, table: bytes, pk: bytes, readTs: Ts)
    requires WellFormed(t) && NoHighKey(View(t), table)
    ensures var items := ScanItems(t, Prefix(table), Some(ScanEnd(table)));
            S.ReadAt(View(items), Prefix(table) + pk, readTs) == S.ReadAt(View(t), Prefix(table) + pk, readTs)
  {
    var items := ScanItems(t, Prefix(table), Some(ScanEnd(table)));
    var key := Prefix(table) + pk;
    ScanSound(t, Prefix(table), Some(ScanEnd(table)));
    forall u: Ts ensures Version(key, u) in View(items) <==> Version(key, u) in View(t)
                 ensures Version(key, u) in View(items) ==> View(items)[Version(key, u)] == View(t)[Version(key, u)] {
      if Version(key, u) in View(items) {
        var i := PositionOf(items, Version(key, u));
        ItemInView(t, items[i]);
      }
      if Version(key, u) in View(t) {
        var i := PositionOf(t, Version(key, u));
        ScanCovers(t, table, t[i]);
        ItemInView(items, t[i]);
      }
    }
    S.ReadFrame(View(items), View(t), key, readTs);
  }

  /** The table scan returns exactly one row per primary key with a visible version, carrying its newest
      visible value, at every timestamp, if and only if no stored key continues the table prefix with 0xFF. */
  lemma TableScanExact(t: Tree, table: bytes)
    requires WellFormed(t) && COLON !in table
    ensures NoHighKey(View(t), table) <==>
            forall readTs: Ts :: ExactRows(ScanRows(t, table, readTs), View(t), table, readTs)
  {
    if NoHighKey(View(t), table) {
      forall readTs: Ts ensures ExactRows(ScanRows(t, table, readTs), View(t), table, readTs) {
        ScanExactAt(t, table, readTs);
      }
    } else {
      var v :| v in View(t) && ScanEnd(table) <= v.key;
      HighKeyMissed(t, table, v);
    }
  }

  lemma ScanExactAt(t: Tree, table: bytes, readTs: Ts)
    requires WellFormed(t) && COLON !in table && NoHighKey(View(t), table)
    ensures ExactRows(ScanRows(t, table, readTs), View(t), table, readTs)
  {
    ScanSound(t, Prefix(table), Some(ScanEnd(table)));
    VisitExact(ScanItems(t, Prefix(table), Some(ScanEnd(table))), table, readTs);
    forall pk { ScannedReads(t, table, pk, readTs); }
  }

  /** The scan range holds no version of a high key. */
  lemma HighKeyNotScanned(t: Tree, table: bytes, k: bytes, readTs: Ts)
    requires WellFormed(t) && ScanEnd(table) <= k && Prefix(table) <= k
    ensures S.ReadAt(View(ScanItems(t, Prefix(table), Some(ScanEnd(table)))), k, readTs) == None
  {
    var items := ScanItems(t, Prefix(table), Some(ScanEnd(table)));
    ScanSound(t, Prefix(table), Some(ScanEnd(table)));
    PastIsHigh(table, k);
    S.NewestSpec(View(items), k, readTs);
    if S.NewestTs(View(items), k, readTs).Some? {
      var i := PositionOf(items, Version(k, S.NewestTs(View(items), k, readTs).value));
      assert false;
    }
  }

  lemma HighKeyHasNoRow(t: Tree, table: bytes, pk: bytes, readTs: Ts)
    requires WellFormed(t) && COLON !in table && ScanEnd(table) <= Prefix(table) + pk
    ensures !HasRow(ScanRows(t, table, readTs), pk)
  {
    HighKeyNotScanned(t, table, Prefix(table) + pk, readTs);
    ScanSound(t, Prefix(table), Some(ScanEnd(table)));
    VisitExact(ScanItems(t, Prefix(table), Some(ScanEnd(table))), table, readTs);
  }

  lemma HighKeySplit(table: bytes, k: bytes) returns (pk: bytes)
    requires ScanEnd(table) <= k
    ensures k == Prefix(table) + pk
  {
    var p := Prefix(table);
    pk := k[|p|..];
    assert p == ScanEnd(table)[..|p|] == k[..|p|];
  }

  lemma HighKeyMissed(t: Tree, table: bytes, v: Version)
    requires WellFormed(t) && COLON !in table && v in View(t) && ScanEnd(table) <= v.key
    ensures !ExactRows(ScanRows(t, table, v.ts), View(t), table, v.ts)
  {
    var pk := HighKeySplit(table, v.key);
    S.NewestSpec(View(t), Prefix(table) + pk, v.ts);
    assert v == Version(Prefix(table) + pk, v.ts);
    assert S.ReadAt(View(t), Prefix(table) + pk, v.ts).Some?;
    HighKeyHasNoRow(t, table, pk, v.ts);
  }

  /** The scan shows a key's row exactly as its point read answers. */
  ghost predicate Agrees(rows: seq<Row>, pk: bytes, answer: S.ReadResult) {
    && (forall value :: Row(pk, value) in rows <==> answer == S.Value(Some(value)))
    && (!HasRow(rows, pk) <==> answer == S.Value(None))
  }

  /** At every timestamp the scan and the point read of an unlocked key agree if and only if no other key's
      version intercepts the point read's seek. */
  lemma ScanAgreesExactly(t: Tree, locks: map<bytes, S.Lock>, table: bytes, readTs: Ts, pk: bytes)
    requires WellFormed(t) && COLON !in table && NoHighKey(View(t), table) && Prefix(table) + pk !in locks
    ensures Agrees(ScanRows(t, table, readTs), pk, M.SeekGet(t, locks, Prefix(table) + pk, readTs)) <==>
            !Interloper(View(t), Prefix(table) + pk, readTs)
  {
    var k, rows := Prefix(table) + pk, ScanRows(t, table, readTs);
    ScanExactAt(t, table, readTs);
    SeekReadExact(t, k, readTs);
    if HasRow(rows, pk) {
      var r :| r in rows && r.key == pk;
      assert r == Row(pk, r.value);
    }
  }

  /** With ASCII keys at low timestamps they agree at every low timestamp. */
  lemma ScanAgreesWithPointRead(t: Tree, locks: map<bytes, S.Lock>, table: bytes, readTs: Ts, pk: bytes)
    requires WellFormed(t) && COLON !in table && AsciiLow(View(t)) && readTs < LOW_TS
    requires Prefix(table) + pk !in locks
    ensures Agrees(ScanRows(t, table, readTs), pk, M.SeekGet(t, locks, Prefix(table) + pk, readTs))
  {
    var k := Prefix(table) + pk;
    AsciiHasNoHighKey(View(t), table);
    ScanAgreesExactly(t, locks, table, readTs, pk);
    SeekReadExact(t, k, readTs);
    if v :| v in View(t) && v.key == k {
      SeekReadCorrect(t, k, readTs);
    } else {
      AbsentKeyRead(t, k, readTs);
    }
  }

  lemma AsciiHasNoHighKey(m: map<Version, bytes>, table: bytes)
    requires AsciiLow(m)
    ensures NoHighKey(m, table)
  {
    assert ScanEnd(table)[|Prefix(table)|] == 0xFF;
  }

  /** At the greatest timestamp, where the server runs every query, they agree about such keys if and only if
      the key has no version or no stored extension: otherwise the scan shows a row the point read misses. */
  lemma LatestScanAgrees(t: Tree, locks: map<bytes, S.Lock>, table: bytes, pk: bytes)
    requires WellFormed(t) && COLON !in table && AsciiLow(View(t)) && Prefix(table) + pk !in locks
    ensures Agrees(ScanRows(t, table, MAX_TS), pk, M.SeekGet(t, locks, Prefix(table) + pk, MAX_TS)) <==>
            !(Stored(View(t), Prefix(table) + pk) && Extended(View(t), Prefix(table) + pk))
  {
    AsciiHasNoHighKey(View(t), table);
    ScanAgreesExactly(t, locks, table, MAX_TS, pk);
    LatestInterloper(View(t), Prefix(table) + pk);
  }

  // ---------- point read and insert ----------

  datatype Result = Rows(rows: seq<Row>) | Failed

  method ExecutePointGet(engine: M.MemoryStore, table: bytes, key: bytes, readTs: Ts) returns (r: Result)
    requires engine.Valid()
    ensures r == match M.SeekGet(engine.tree, engine.locks, Prefix(table) + key, readTs)
                 case Locked(_) => Failed
                 case Value(None) => Rows([])
                 case Value(Some(v)) => Rows([Row(key, v)])
  {
    var got := engine.GetTxn(Prefix(table) + key, readTs);
    match got
    case Locked(_) => return Failed;
    case Value(None) => return Rows([]);
    case Value(Some(v)) => return Rows([Row(key, v)]);
  }

  /** "auto-" and the timestamp. */
  function AutoTxn(ts: Ts): S.TxnId {
    [0x61, 0x75, 0x74, 0x6F, 0x2D] + Text.Decimal(ts)
  }

  /** The store after an auto-commit insert: one new version of table:pk, or nothing new when the key is locked. */
  function Inserted(s: S.Store, table: bytes, values: seq<bytes>, ts: Ts): S.Store {
    if |values| == 0 || S.LockedByOther(s, Prefix(table) + values[0], AutoTxn(ts)) then s
    else
      var k := Prefix(table) + values[0];
      S.Store(s.versions[Version(k, ts) := Text.Join(values, Text.COMMA)], s.locks - {k})
  }

  method ExecuteInsert(engine: M.MemoryStore, table: bytes, values: seq<bytes>, commitTs: Ts) returns (ok: bool)
    requires engine.Valid()
    modifies engine
    ensures engine.Valid()
    ensures engine.Contents() == Inserted(old(engine.Contents()), table, values, commitTs)
    ensures ok <==>
            || |values| == 0
            || var txn := [0x61, 0x75, 0x74, 0x6F, 0x2D] + Text.Decimal(commitTs);
               !S.LockedByOther(old(engine.Contents()), Prefix(table) + values[0], txn)
  {
    if |values| == 0 {
      return true;
    }
    var userKey := Prefix(table) + values[0];
    var txn := AutoTxn(commitTs);
    var holder := engine.Prepare(userKey, Text.Join(values, Text.COMMA), txn);
    if holder.Some? {
      return false;
    }
    ok := engine.Commit(userKey, txn, commitTs);
  }

  /** A successful insert is what every read of table:pk at or after its timestamp answers, up to the next version:
      the columns joined by commas. */
  lemma InsertIsRead(s: S.Store, table: bytes, values: seq<bytes>, ts: Ts, readTs: Ts)
    requires |values| > 0 && !S.LockedByOther(s, table + [0x3A] + values[0], AutoTxn(ts)) && ts <= readTs
    requires forall u: Ts :: Version(table + [0x3A] + values[0], u) in s.versions && u <= readTs ==> u <= ts
    ensures S.GetTxn(Inserted(s, table, values, ts), table + [0x3A] + values[0], readTs) ==
            S.Value(Some(Text.Join(values, 0x2C)))
  {
    var k, m := Prefix(table) + values[0], Inserted(s, table, values, ts).versions;
    assert S.IsNewest(m, k, readTs, ts);
    S.NewestUnique(m, k, readTs);
  }

  /** The engine's own read answers so if and only if nothing intercepts its seek. */
  lemma InsertIsSought(s: S.Store, t: Tree, table: bytes, values: seq<bytes>, ts: Ts, readTs: Ts)
    requires |values| > 0 && !S.LockedByOther(s, Prefix(table) + values[0], AutoTxn(ts)) && ts <= readTs
    requires forall u: Ts :: Version(Prefix(table) + values[0], u) in s.versions && u <= readTs ==> u <= ts
    requires WellFormed(t) && View(t) == Inserted(s, table, values, ts).versions
    ensures var k, row := Prefix(table) + values[0], S.Value(Some(Text.Join(values, Text.COMMA)));
            M.SeekGet(t, Inserted(s, table, values, ts).locks, k, readTs) == row <==> !Interloper(View(t), k, readTs)
  {
    InsertIsRead(s, table, values, ts, readTs);
    SeekReadExact(t, Prefix(table) + values[0], readTs);
  }

  /** The stored row splits back into its columns if and only if no column contains a comma. */
  lemma ColumnsRecovered(values: seq<bytes>)
    requires |values| > 0
    ensures Text.Split(Text.Join(values, Text.COMMA), Text.COMMA) == values <==> Text.Free(values, Text.COMMA)
  {
    Text.SplitJoin(values, Text.COMMA);
  }

  /** Inserts at different timestamps act as different transactions. */
  lemma AutoTxnInjective(a: Ts, b: Ts)
    ensures AutoTxn(a) == AutoTxn(b) <==> a == b
  {
    Text.ScanDecimal(a);
    Text.ScanDecimal(b);
    assert AutoTxn(a)[5..] == Text.Decimal(a) && AutoTxn(b)[5..] == Text.Decimal(b);
  }
}
