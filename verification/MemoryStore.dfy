/** The storage engine of a shard: the tree and the lock table, updated in place. */
module MemoryStore {
  import opened Bytes
  import opened Mvcc
  import opened Tree
  import S = Store
  import opened SeekRead
  import opened RangeScan
  import Gc

  /** What GetTxn computes from the tree and the lock table. */
  function SeekGet(t: Tree, locks: map<bytes, S.Lock>, key: bytes, readTs: Ts): S.ReadResult {
    if key in locks then S.Locked(locks[key].txn) else S.Value(MvccGet(t, key, readTs))
  }

  class MemoryStore {
    var tree: Tree
    var locks: map<bytes, S.Lock>

    ghost predicate Valid()
      reads this
    {
      WellFormed(tree)
    }

    /** The store as a map of versions and a lock table. */
    ghost function Contents(): S.Store
      reads this
    {
      S.Store(View(tree), locks)
    }

    constructor ()
      ensures Valid() && Contents() == S.EMPTY
    {
      tree, locks := [], map[];
    }

    /** The error names the transaction that holds the key. */
    method Prepare(key: bytes, value: bytes, txn: S.TxnId) returns (holder: Option<S.TxnId>)
      requires Valid()
      modifies this`locks
      ensures Contents() == S.Prepare(old(Contents()), key, value, txn)
      ensures holder == if S.LockedByOther(old(Contents()), key, txn) then Some(old(locks[key].txn)) else None
    {
      if key in locks && locks[key].txn != txn {
        return Some(locks[key].txn);
      }
      locks := locks[key := S.Lock(txn, value)];
      return None;
    }

    method Commit(key: bytes, txn: S.TxnId, ts: Ts) returns (ok: bool)
      requires Valid()
      modifies this
      ensures Valid()
      ensures Contents() == S.Commit(old(Contents()), key, txn, ts)
      ensures ok <==> S.Holds(old(Contents()), key, txn)
    {
      if key !in locks || locks[key].txn != txn {
        return false;
      }
      var encoded := EncodeKey(key, ts);
      InsertView(tree, Version(key, ts), locks[key].value);
      tree := Insert(tree, Item(encoded[..], locks[key].value));
      locks := locks - {key};
      return true;
    }

    method Abort(key: bytes, txn: S.TxnId) returns (ok: bool)
      requires Valid()
      modifies this`locks
      ensures Contents() == S.Abort(old(Contents()), key, txn)
      ensures ok <==> !S.LockedByOther(old(Contents()), key, txn)
    {
      if key !in locks {
        return true;
      }
      if locks[key].txn != txn {
        return false;
      }
      locks := locks - {key};
      return true;
    }

    method OnePhaseCommit(ops: seq<S.Write>, txn: S.TxnId, ts: Ts) returns (ok: bool)
      requires Valid()
      modifies this
      ensures Valid()
      ensures Contents() == S.OnePhaseCommit(old(Contents()), ops, txn, ts)
      ensures ok <==> !S.Blocked(old(Contents()), ops, txn)
    {
      var conflict := FindConflict(locks, ops, txn);
      if conflict {
        return false;
      }
      ghost var versions, held := View(tree), locks;
      for i := 0 to |ops|
        invariant Valid()
        invariant View(tree) == S.InstallAll(versions, ops[..i], ts)
        invariant locks == held - S.Keys(ops[..i])
      {
        var encoded := EncodeKey(ops[i].key, ts);
        InstallStep(tree, versions, held, ops, i, ts);
        tree := Insert(tree, Item(encoded[..], ops[i].value));
        locks := locks - {ops[i].key};
      }
      assert ops[..|ops|] == ops;
      return true;
    }

    method GetTxn(key: bytes, readTs: Ts) returns (r: S.ReadResult)
      requires Valid()
      ensures r.Locked? <==> key in locks
      ensures r.Locked? ==> r.holder == locks[key].txn
      ensures r == SeekGet(tree, locks, key, readTs)
      ensures r == S.GetTxn(Contents(), key, readTs) <==> key in locks || !Interloper(View(tree), key, readTs)
    {
      if key in locks {
        return S.Locked(locks[key].txn);
      }
      SeekReadExact(tree, key, readTs);
      var seek := EncodeKey(key, readTs);
      var n := Seek(tree, seek[..]);
      if n < |tree| && Decode(tree[n].key).key == key {
        return S.Value(Some(tree[n].value));
      }
      return S.Value(None);
    }

    method RunGC(safeTs: Ts) returns (deleted: nat)
      requires Valid()
      modifies this`tree
      ensures Valid()
      ensures tree == Gc.Collect(old(tree), safeTs)
      ensures deleted == |old(tree)| - |tree|
    {
      Gc.NeighboursDescend(tree);
      KeysDistinct(tree);
      var keysToDelete := FindShadowed(tree, safeTs);
      tree, deleted := DeleteAll(tree, keysToDelete, safeTs);
      MarkedIsCollect(old(tree), keysToDelete, safeTs, tree);
      Gc.CollectSubset(old(tree), safeTs);
    }

    /** The items handed to a callback; more is what it returns for each. */
    method Scan(start: bytes, end: Bound, more: Item -> bool) returns (visited: seq<Item>)
      requires Valid()
      ensures visited == Handed(ScanItems(tree, start, end), more)
    {
      var seek := EncodeKey(start, MAX_TS);
      visited := VisitFrom(tree, Seek(tree, seek[..]), end, more);
    }

    method ScanRange(start: bytes, end: Bound) returns (data: map<bytes, bytes>)
      requires Valid()
      ensures data == Raw(ScanItems(tree, start, end))
    {
      var items := Scan(start, end, _ => true);
      HandedAll(ScanItems(tree, start, end));
      ScanSound(tree, start, end);
      data := map[];
      for i := 0 to |items|
        invariant data == Raw(items[..i])
      {
        data := data[items[i].key := items[i].value];
        RawSnoc(items, i);
      }
      assert items[..|items|] == items;
    }

    /** Writes raw entries in whatever order the map is traversed. */
    method Ingest(data: map<bytes, bytes>)
      requires Valid()
      modifies this`tree
      ensures Sorted(tree) && Raw(tree) == Raw(old(tree)) + data
      ensures EncodedKeys(data) ==> Valid() && Contents() == S.Ingest(old(Contents()), Entries(data))
    {
      tree := Overlay(tree, data);
      if EncodedKeys(data) { IngestedView(old(tree), tree, data); }
    }

    /** Auto-commit write at timestamp 1. */
    method Put(key: bytes, value: bytes) returns (ok: bool)
      requires Valid()
      modifies this
      ensures Valid()
      ensures ok <==> !S.LockedByOther(old(Contents()), key, [108, 101, 103, 97, 99, 121])
      ensures ok ==> Contents() == S.Store(old(View(tree))[Version(key, 1) := value], old(locks) - {key})
      ensures !ok ==> Contents() == old(Contents())
    {
      var holder := Prepare(key, value, LEGACY);
      if holder.Some? {
        return false;
      }
      ok := Commit(key, LEGACY, 1);
    }

    /** Latest read. */
    method Get(key: bytes) returns (r: S.ReadResult)
      requires Valid()
      ensures r == SeekGet(tree, locks, key, MAX_TS)
      ensures r == S.GetTxn(Contents(), key, MAX_TS) <==> key in locks || !Interloper(View(tree), key, MAX_TS)
    {
      r := GetTxn(key, MAX_TS);
    }
  }

  /** The raw entries of some versions. */
  function RawEntries(data: map<Version, bytes>): map<bytes, bytes> {
    EncodeInjective(data);
    map v | v in data :: Encode(v.key, v.ts) := data[v]
  }

  lemma EncodeInjective(data: map<Version, bytes>)
    ensures forall v, w :: v in data && w in data && Encode(v.key, v.ts) == Encode(w.key, w.ts) ==> v == w
  {
    forall v, w | v in data && w in data && Encode(v.key, v.ts) == Encode(w.key, w.ts) ensures v == w {
      DecodeEncode(v.key, v.ts);
      DecodeEncode(w.key, w.ts);
    }
  }

  lemma RawEntriesBack(data: map<Version, bytes>)
    ensures EncodedKeys(RawEntries(data)) && Entries(RawEntries(data)) == data
  {
    var raw := RawEntries(data);
    forall v ensures SameAt(Entries(raw), data, v) {
      EntryOf(raw, v);
      EncodeInjective(data);
      DecodeEncode(v.key, v.ts);
      if Encode(v.key, v.ts) in raw {
        var w :| w in data && Encode(w.key, w.ts) == Encode(v.key, v.ts);
        DecodeEncode(w.key, w.ts);
      }
    }
    SameEverywhere(Entries(raw), data);
  }

  /** The engine carries out a sequence of operations as the specification's run does. */
  method Execute(store: MemoryStore, ops: seq<S.Op>)
    requires store.Valid()
    modifies store
    ensures store.Valid()
    ensures store.Contents() == S.Run(old(store.Contents()), ops)
  {
    for i := 0 to |ops|
      invariant store.Valid()
      invariant store.Contents() == S.Run(old(store.Contents()), ops[..i])
    {
      S.RunMore(old(store.Contents()), ops[..i], ops[i]);
      assert ops[..i + 1] == ops[..i] + [ops[i]];
      ExecuteOne(store, ops[i]);
    }
    assert ops[..|ops|] == ops;
  }

  method ExecuteOne(store: MemoryStore, op: S.Op)
    requires store.Valid()
    modifies store
    ensures store.Valid()
    ensures store.Contents() == S.Apply(old(store.Contents()), op)
  {
    match op
    case PrepareOp(key, value, txn) =>
      var holder := store.Prepare(key, value, txn);
    case CommitOp(key, txn, ts) =>
      var ok := store.Commit(key, txn, ts);
    case AbortOp(key, txn) =>
      var ok := store.Abort(key, txn);
    case OnePhaseOp(ws, txn, ts) =>
      var ok := store.OnePhaseCommit(ws, txn, ts);
    case IngestOp(data) =>
      IngestVersions(store, data);
  }

  method IngestVersions(store: MemoryStore, data: map<Version, bytes>)
    requires store.Valid()
    modifies store
    ensures store.Valid()
    ensures store.Contents() == S.Ingest(old(store.Contents()), data)
  {
    var raw := RawEntries(data);
    RawEntriesBack(data);
    store.Ingest(raw);
  }

  /** "legacy" */
  const LEGACY: S.TxnId := [108, 101, 103, 97, 99, 121]

  /** The validation pass of OnePhaseCommit: is some key locked by another transaction? */
  method FindConflict(locks: map<bytes, S.Lock>, ops: seq<S.Write>, txn: S.TxnId) returns (conflict: bool)
    ensures conflict <==> exists w :: w in ops && w.key in locks && locks[w.key].txn != txn
  {
    for i := 0 to |ops|
      invariant forall j :: 0 <= j < i ==> ops[j].key in locks ==> locks[ops[j].key].txn == txn
    {
      if ops[i].key in locks && locks[ops[i].key].txn != txn {
        assert ops[i] in ops;
        return true;
      }
    }
    return false;
  }

  lemma InstallStep(t: Tree, versions: map<Version, bytes>, held: map<bytes, S.Lock>, ops: seq<S.Write>, i: nat, ts: Ts)
    requires WellFormed(t) && i < |ops| && View(t) == S.InstallAll(versions, ops[..i], ts)
    ensures WellFormed(Insert(t, Item(Encode(ops[i].key, ts), ops[i].value)))
    ensures View(Insert(t, Item(Encode(ops[i].key, ts), ops[i].value))) == S.InstallAll(versions, ops[..i + 1], ts)
    ensures held - S.Keys(ops[..i]) - {ops[i].key} == held - S.Keys(ops[..i + 1])
  {
    InsertView(t, Version(ops[i].key, ts), ops[i].value);
    S.InstallNext(versions, ops, i, ts);
  }

  // ---------- traversals ----------

  /** The ascending traversal of RunGC: collects the keys of the items it will delete. */
  method FindShadowed(t: Tree, safeTs: Ts) returns (keysToDelete: seq<bytes>)
    requires Gc.Descending(None, t) && DistinctKeys(t)
    ensures Marked(t, keysToDelete, |t|, safeTs)
  {
    keysToDelete := [];
    var currentUserKey: bytes := [];
    var foundSnapshot := false;
    for i := 0 to |t|
      invariant i == 0 ==> !foundSnapshot
      invariant i > 0 ==> currentUserKey == UserKey(t[i - 1]) && (foundSnapshot <==> TsOf(t[i - 1]) <= safeTs)
      invariant Marked(t, keysToDelete, i, safeTs)
    {
      var version := Decode(t[i].key);
      PassStep(t, i, currentUserKey, foundSnapshot, safeTs);
      MarkItem(t, keysToDelete, i, safeTs);
      if version.key != currentUserKey {
        currentUserKey := version.key;
        foundSnapshot := false;
      }
      if version.ts <= safeTs {
        if !foundSnapshot {
          foundSnapshot := true;
        } else {
          keysToDelete := keysToDelete + [t[i].key];
        }
      }
    }
  }

  /** The second loop of RunGC: deletes the collected keys and counts them. */
  method DeleteAll(t: Tree, keysToDelete: seq<bytes>, safeTs: Ts) returns (u: Tree, deleted: nat)
    requires WellFormed(t) && Marked(t, keysToDelete, |t|, safeTs)
    ensures Sorted(u) && Raw(u) == Raw(t) - FirstKeys(keysToDelete, |keysToDelete|) && deleted == |t| - |u|
  {
    u, deleted := t, 0;
    for d := 0 to |keysToDelete|
      invariant deleted == d == |t| - |u|
      invariant Sorted(u)
      invariant Raw(u) == Raw(t) - FirstKeys(keysToDelete, d)
    {
      var k := keysToDelete[d];
      MarkedStored(t, keysToDelete, safeTs, d);
      RemoveSpec(u, k);
      u := Remove(u, k);
      assert Raw(u) == Raw(t) - FirstKeys(keysToDelete, d + 1);
      deleted := deleted + 1;
    }
  }

  /** The ascending traversal of Scan, from a position to the first key past the end or the first refused item. */
  method VisitFrom(t: Tree, n: nat, end: Bound, more: Item -> bool) returns (visited: seq<Item>)
    requires n <= |t|
    ensures visited == Handed(TakeBelow(t[n..], end), more)
  {
    visited := [];
    var i := n;
    while i < |t| && !Past(UserKey(t[i]), end)
      invariant n <= i <= |t| && visited == t[n..i] && Taken(t, n, i, end, more)
    {
      visited := visited + [t[i]];
      i := i + 1;
      if !more(t[i - 1]) {
        HandedRefused(t, n, i, end, more);
        return;
      }
    }
    HandedWhole(t, n, i, end, more);
  }

  /** These items are below the end and the callback wants more after each. */
  ghost predicate Taken(t: Tree, n: nat, i: nat, end: Bound, more: Item -> bool)
    requires n <= i <= |t|
  {
    forall j :: n <= j < i ==> !Past(UserKey(t[j]), end) && more(t[j])
  }

  lemma {:induction false} HandedWhole(t: Tree, n: nat, i: nat, end: Bound, more: Item -> bool)
    requires n <= i <= |t| && Taken(t, n, i, end, more) && (i == |t| || Past(UserKey(t[i]), end))
    ensures Handed(TakeBelow(t[n..], end), more) == t[n..i]
    decreases i - n
  {
    if n < i {
      HandedWhole(t, n + 1, i, end, more);
      HandNext(t, n, end, more);
      SliceNext(t, n, i);
    }
  }

  lemma {:induction false} HandedRefused(t: Tree, n: nat, i: nat, end: Bound, more: Item -> bool)
    requires n < i <= |t| && Taken(t, n, i - 1, end, more)
    requires !Past(UserKey(t[i - 1]), end) && !more(t[i - 1])
    ensures Handed(TakeBelow(t[n..], end), more) == t[n..i]
    decreases i - n
  {
    HandNext(t, n, end, more);
    SliceNext(t, n, i);
    if n < i - 1 {
      HandedRefused(t, n + 1, i, end, more);
    }
  }

  lemma HandNext(t: Tree, i: nat, end: Bound, more: Item -> bool)
    requires i < |t| && !Past(UserKey(t[i]), end)
    ensures Handed(TakeBelow(t[i..], end), more) ==
            [t[i]] + (if more(t[i]) then Handed(TakeBelow(t[i + 1..], end), more) else [])
  {
    assert t[i..][1..] == t[i + 1..];
  }

  lemma SliceNext(t: Tree, n: nat, i: nat)
    requires n < i <= |t|
    ensures t[n..i] == [t[n]] + t[n + 1..i]
  {
  }

  /** The loop of Ingest, over the map in any order. */
  method Overlay(t: Tree, data: map<bytes, bytes>) returns (u: Tree)
    requires Sorted(t)
    ensures Sorted(u) && Raw(u) == Raw(t) + data
    ensures Encoded(t) && EncodedKeys(data) ==> Encoded(u)
  {
    u := t;
    var rest := data;
    while rest.Keys != {}
      invariant Sorted(u) && rest.Keys <= data.Keys
      invariant Raw(u) + rest == Raw(t) + data
      invariant Encoded(t) && EncodedKeys(data) ==> Encoded(u)
      decreases |rest|
    {
      var k :| k in rest.Keys;
      InsertSpec(u, Item(k, rest[k]));
      MoveEntry(Raw(u), rest, k);
      u := Insert(u, Item(k, rest[k]));
      rest := rest - {k};
    }
  }

  lemma MoveEntry(m: map<bytes, bytes>, rest: map<bytes, bytes>, k: bytes)
    requires k in rest
    ensures m[k := rest[k]] + (rest - {k}) == m + rest
    ensures |rest - {k}| < |rest|
  {
    assert (rest - {k}).Keys == rest.Keys - {k};
  }

  predicate EncodedKeys(data: map<bytes, bytes>) {
    forall k :: k in data ==> |k| >= 8
  }

  /** Raw entries as versions. */
  ghost function Entries(data: map<bytes, bytes>): map<Version, bytes>
    requires EncodedKeys(data)
  {
    DecodeInjective(data);
    map k | k in data :: Decode(k) := data[k]
  }

  lemma DecodeInjective(data: map<bytes, bytes>)
    requires EncodedKeys(data)
    ensures forall j, k :: j in data && k in data && Decode(j) == Decode(k) ==> j == k
  {
    forall j, k | j in data && k in data && Decode(j) == Decode(k) ensures j == k {
      EncodeDecode(j);
      EncodeDecode(k);
    }
  }

  lemma IngestedView(t: Tree, u: Tree, data: map<bytes, bytes>)
    requires Encoded(t) && Encoded(u) && EncodedKeys(data) && Raw(u) == Raw(t) + data
    ensures View(u) == View(t) + Entries(data)
  {
    forall v ensures SameAt(View(u), View(t) + Entries(data), v) { IngestedVersion(t, u, data, v); }
    SameEverywhere(View(u), View(t) + Entries(data));
  }

  ghost predicate SameAt(a: map<Version, bytes>, b: map<Version, bytes>, v: Version) {
    (v in a <==> v in b) && (v in a && v in b ==> a[v] == b[v])
  }

  lemma SameEverywhere(a: map<Version, bytes>, b: map<Version, bytes>)
    requires forall v :: SameAt(a, b, v)
    ensures a == b
  {
    forall v ensures v in a <==> v in b
             ensures v in a && v in b ==> a[v] == b[v] {
      assert SameAt(a, b, v);
    }
  }

  lemma IngestedVersion(t: Tree, u: Tree, data: map<bytes, bytes>, v: Version)
    requires Encoded(t) && Encoded(u) && EncodedKeys(data) && Raw(u) == Raw(t) + data
    ensures SameAt(View(u), View(t) + Entries(data), v)
  {
    ViewIsRaw(t, v);
    ViewIsRaw(u, v);
    EntryOf(data, v);
  }

  lemma EntryOf(data: map<bytes, bytes>, v: Version)
    requires EncodedKeys(data)
    ensures v in Entries(data) <==> Encode(v.key, v.ts) in data
    ensures v in Entries(data) ==> Entries(data)[v] == data[Encode(v.key, v.ts)]
  {
    var e := Encode(v.key, v.ts);
    DecodeEncode(v.key, v.ts);
    DecodeInjective(data);
    if v in Entries(data) {
      var k :| k in data && Decode(k) == v;
      EncodeDecode(k);
    }
  }

  // ---------- collection bookkeeping ----------

  /** The keys of the shadowed items among the first n. */
  ghost function ShadowedKeys(t: Tree, n: nat, safeTs: Ts): set<bytes>
    requires n <= |t|
  {
    if n == 0 then {}
    else
      var marked := if Gc.Shadowed(Gc.Before(t, n - 1), t[n - 1], safeTs) then {t[n - 1].key} else {};
      ShadowedKeys(t, n - 1, safeTs) + marked
  }

  ghost function FirstKeys(ks: seq<bytes>, n: nat): set<bytes>
    requires n <= |ks|
  {
    set i | 0 <= i < n :: ks[i]
  }

  /** The marked keys are exactly the shadowed ones among the first n items, each once. */
  ghost predicate Marked(t: Tree, marked: seq<bytes>, n: nat, safeTs: Ts)
    requires n <= |t|
  {
    FirstKeys(marked, |marked|) == ShadowedKeys(t, n, safeTs) && Distinct(marked)
  }

  ghost predicate Distinct(ks: seq<bytes>) {
    forall a, b :: 0 <= a < b < |ks| ==> ks[a] != ks[b]
  }

  ghost predicate DistinctKeys(t: Tree) {
    forall i, j :: 0 <= i < j < |t| ==> t[i].key != t[j].key
  }

  lemma KeysDistinct(t: Tree)
    requires Sorted(t)
    ensures DistinctKeys(t)
  {
    forall i, j | 0 <= i < j < |t| ensures t[i].key != t[j].key { PositionOrder(t, i, j); }
  }

  lemma {:induction false} ShadowedKeysStored(t: Tree, n: nat, safeTs: Ts, k: bytes)
    requires n <= |t| && k in ShadowedKeys(t, n, safeTs)
    ensures exists j :: 0 <= j < n && t[j].key == k
    decreases n
  {
    if k != t[n - 1].key { ShadowedKeysStored(t, n - 1, safeTs, k); }
  }

  lemma {:induction false} ShadowedKeysOf(t: Tree, n: nat, safeTs: Ts, i: nat)
    requires DistinctKeys(t) && n <= |t| && i < |t|
    ensures t[i].key in ShadowedKeys(t, n, safeTs) <==> i < n && Gc.Shadowed(Gc.Before(t, i), t[i], safeTs)
    decreases n
  {
    if n > 0 { ShadowedKeysOf(t, n - 1, safeTs, i); }
  }

  lemma MarkNext(marked: seq<bytes>, k: bytes)
    requires Distinct(marked) && k !in FirstKeys(marked, |marked|)
    ensures FirstKeys(marked + [k], |marked| + 1) == FirstKeys(marked, |marked|) + {k} && Distinct(marked + [k])
  {
    assert (marked + [k])[|marked|] == k;
    assert forall i :: 0 <= i < |marked| ==> (marked + [k])[i] == marked[i];
  }

  /** One item further: marked exactly when it is shadowed. */
  lemma MarkItem(t: Tree, marked: seq<bytes>, i: nat, safeTs: Ts)
    requires DistinctKeys(t) && i < |t| && Marked(t, marked, i, safeTs)
    ensures if Gc.Shadowed(Gc.Before(t, i), t[i], safeTs) then Marked(t, marked + [t[i].key], i + 1, safeTs)
            else Marked(t, marked, i + 1, safeTs)
  {
    ShadowedKeysOf(t, i, safeTs, i);
    if Gc.Shadowed(Gc.Before(t, i), t[i], safeTs) { MarkNext(marked, t[i].key); }
  }

  /** The traversal state decides whether the item is shadowed. */
  lemma PassStep(t: Tree, i: nat, current: bytes, found: bool, safeTs: Ts)
    requires Gc.Descending(None, t) && i < |t|
    requires if i == 0 then !found else current == UserKey(t[i - 1]) && (found <==> TsOf(t[i - 1]) <= safeTs)
    ensures Gc.Shadowed(Gc.Before(t, i), t[i], safeTs) <==> UserKey(t[i]) == current && found && TsOf(t[i]) <= safeTs
    ensures UserKey(t[i]) == current && found ==> TsOf(t[i]) <= safeTs
  {
  }

  lemma MarkedStored(t: Tree, marked: seq<bytes>, safeTs: Ts, d: nat)
    requires WellFormed(t) && Marked(t, marked, |t|, safeTs) && d < |marked|
    ensures marked[d] in Raw(t) && marked[d] !in FirstKeys(marked, d)
    ensures FirstKeys(marked, d + 1) == FirstKeys(marked, d) + {marked[d]}
  {
    assert marked[d] in ShadowedKeys(t, |t|, safeTs);
    ShadowedKeysStored(t, |t|, safeTs, marked[d]);
    var i :| 0 <= i < |t| && t[i].key == marked[d];
    RawMember(t, t[i]);
  }

  lemma CollectItem(t: Tree, safeTs: Ts, x: Item)
    requires WellFormed(t)
    ensures x in Gc.Collect(t, safeTs) <==> x in t && x.key !in ShadowedKeys(t, |t|, safeTs)
  {
    Gc.CollectSubset(t, safeTs);
    if x in t {
      var i :| 0 <= i < |t| && t[i] == x;
      KeysDistinct(t);
      ShadowedKeysOf(t, |t|, safeTs, i);
      Gc.CollectAt(t, safeTs, i);
    }
  }

  lemma MarkedIsCollect(t: Tree, marked: seq<bytes>, safeTs: Ts, u: Tree)
    requires WellFormed(t) && Marked(t, marked, |t|, safeTs)
    requires Sorted(u) && Raw(u) == Raw(t) - FirstKeys(marked, |marked|)
    ensures u == Gc.Collect(t, safeTs)
  {
    Gc.CollectSubset(t, safeTs);
    forall x: Item ensures x in u <==> x in Gc.Collect(t, safeTs) {
      RawMember(u, x);
      RawMember(t, x);
      CollectItem(t, safeTs, x);
    }
    SameItems(u, Gc.Collect(t, safeTs));
  }

  /** Sorted trees with the same items are equal. */
  lemma SameItems(t: Tree, u: Tree)
    requires Sorted(t) && Sorted(u) && forall x :: x in t <==> x in u
    ensures t == u
  {
    forall k ensures k in Raw(t) <==> k in Raw(u)
             ensures k in Raw(t) && k in Raw(u) ==> Raw(t)[k] == Raw(u)[k] {
      if k in Raw(t) { RawMember(t, Item(k, Raw(t)[k])); RawMember(u, Item(k, Raw(t)[k])); }
      if k in Raw(u) { RawMember(u, Item(k, Raw(u)[k])); RawMember(t, Item(k, Raw(u)[k])); }
    }
    assert Raw(t) == Raw(u);
    RawInjective(t, u);
  }

  lemma {:induction false} RawSnoc(t: Tree, i: nat)
    requires Sorted(t) && i < |t|
    ensures Raw(t[..i + 1]) == Raw(t[..i])[t[i].key := t[i].value]
  {
    if i > 0 {
      RawSnoc(t[1..], i - 1);
      assert t[..i + 1][1..] == t[1..][..i] && t[..i][1..] == t[1..][..i - 1];
      PositionOrder(t, 0, i);
    } else {
      assert t[..1] == [t[0]] + [];
    }
  }
}
