/** Moving the upper part of a range to another shard: export, ingest, split. */
module Migration {
  import opened Bytes
  import opened Mvcc
  import opened Tree
  import S = Store
  import opened SeekRead
  import opened RangeScan
  import opened Meta
  import M = MemoryStore

  /** The contents of one shard's store. */
  datatype Node = Node(tree: Tree, locks: map<bytes, S.Lock>)

  type Cluster = map<ShardId, Node>

  /** Every range's shard is present. */
  ghost predicate Serves(rs: seq<Range>, nodes: Cluster) {
    Partition(rs) && forall i :: 0 <= i < |rs| ==> rs[i].shard in nodes
  }

  /** GetShard, then GetTxn at that shard. */
  ghost function RoutedGet(rs: seq<Range>, nodes: Cluster, key: bytes, readTs: Ts): S.ReadResult
    requires Serves(rs, nodes)
  {
    var node := nodes[Owner(rs, key)];
    M.SeekGet(node.tree, node.locks, key, readTs)
  }

  /** Stored keys free of prefixes make every read exact, also of keys that are not stored. */
  lemma PrefixFreeRead(t: Tree, key: bytes, readTs: Ts)
    requires WellFormed(t) && PrefixFree(View(t))
    ensures MvccGet(t, key, readTs) == S.ReadAt(View(t), key, readTs)
  {
    var m := View(t);
    if w :| w in m && w.key == key {
      forall v | v in m && v.key != key ensures Separate(key, readTs, v) {
        assert !(v.key < w.key) && !(w.key < v.key);
      }
      SeekReadCorrect(t, key, readTs);
    } else {
      AbsentKeyRead(t, key, readTs);
    }
  }

  /** The contents of the stores. */
  ghost function NodesOf(stores: map<ShardId, M.MemoryStore>): Cluster
    reads stores.Values
  {
    map id | id in stores :: Node(stores[id].tree, stores[id].locks)
  }

  /** A routed read: look the shard up, then ask its store. */
  method RoutedRead(meta: MetaStore, stores: map<ShardId, M.MemoryStore>, key: bytes, readTs: Ts)
    returns (r: S.ReadResult)
    requires Serves(meta.ranges, NodesOf(stores)) && forall id :: id in stores ==> stores[id].Valid()
    ensures r == RoutedGet(meta.ranges, NodesOf(stores), key, readTs)
  {
    var shard := meta.GetShard(key);
    assert shard in NodesOf(stores);
    r := stores[shard].GetTxn(key, readTs);
  }

  /** What a routed read answers: the lock's holder, or the newest version not after readTs at the key's owner, if
      and only if nothing intercepts the seek there. Prefix-free keys are enough. */
  lemma RoutedGetExactly(rs: seq<Range>, nodes: Cluster, key: bytes, readTs: Ts)
    requires Serves(rs, nodes) && WellFormed(nodes[Owner(rs, key)].tree)
    ensures var node, r := nodes[Owner(rs, key)], RoutedGet(rs, nodes, key, readTs);
            && (key in node.locks ==> r == S.Locked(node.locks[key].txn))
            && (key !in node.locks ==>
                  (r == S.Value(S.ReadAt(View(node.tree), key, readTs)) <==> !Interloper(View(node.tree), key, readTs)))
            && (key !in node.locks && PrefixFree(View(node.tree)) ==>
                  r == S.Value(S.ReadAt(View(node.tree), key, readTs)))
  {
    var node := nodes[Owner(rs, key)];
    SeekReadExact(node.tree, key, readTs);
    if PrefixFree(View(node.tree)) { PrefixFreeRead(node.tree, key, readTs); }
  }

  lemma SameVersionsSameRead(t: Tree, u: Tree, key: bytes, readTs: Ts)
    requires WellFormed(t) && WellFormed(u) && PrefixFree(View(t)) && PrefixFree(View(u))
    requires S.SameVersions(View(t), View(u), key)
    ensures MvccGet(t, key, readTs) == MvccGet(u, key, readTs)
  {
    PrefixFreeRead(t, key, readTs);
    PrefixFreeRead(u, key, readTs);
    S.ReadFrame(View(t), View(u), key, readTs);
  }

  /** The state in which [k, end) may be moved from one node to another. */
  ghost predicate Movable(src: Node, dst: Node, k: bytes, end: Bound) {
    && WellFormed(src.tree) && WellFormed(dst.tree)
    && PrefixFree(View(dst.tree) + View(src.tree))
    && (forall v :: v in View(src.tree) ==> !(v.key < k))
    && (forall v :: v in View(dst.tree) ==> !InRange(v.key, k, end))
    && (forall q :: InRange(q, k, end) ==> q !in src.locks && q !in dst.locks)
  }

  /** moved is a tree that ingesting the export into dst may leave. */
  ghost predicate Moved(src: Node, dst: Node, k: bytes, end: Bound, moved: Tree) {
    Sorted(moved) && Raw(moved) == Raw(dst.tree) + Raw(ScanItems(src.tree, k, end))
  }

  /** The destination then holds what it held and, inside the range, what the source holds. */
  lemma MovedView(src: Node, dst: Node, k: bytes, end: Bound, moved: Tree, v: Version)
    requires Movable(src, dst, k, end) && Moved(src, dst, k, end, moved)
    ensures WellFormed(moved)
    ensures v in View(moved) <==> if InRange(v.key, k, end) then v in View(src.tree) else v in View(dst.tree)
    ensures v in View(moved) ==>
              View(moved)[v] == if InRange(v.key, k, end) then View(src.tree)[v] else View(dst.tree)[v]
  {
    MovedEncoded(src, dst, k, end, moved);
    var e := Encode(v.key, v.ts);
    ViewIsRaw(moved, v);
    ViewIsRaw(dst.tree, v);
    ExportedView(src, dst, k, end, v);
  }

  lemma MovedEncoded(src: Node, dst: Node, k: bytes, end: Bound, moved: Tree)
    requires Movable(src, dst, k, end) && Moved(src, dst, k, end, moved)
    ensures Encoded(moved)
  {
    var exported := ScanItems(src.tree, k, end);
    ScanSound(src.tree, k, end);
    forall x | x in moved ensures |x.key| >= 8 {
      RawMember(moved, x);
      if x.key in Raw(exported) {
        RawMember(exported, Item(x.key, Raw(exported)[x.key]));
      } else {
        RawMember(dst.tree, x);
      }
    }
  }

  /** The export holds exactly the source's versions in the range. */
  lemma ExportedView(src: Node, dst: Node, k: bytes, end: Bound, v: Version)
    requires Movable(src, dst, k, end)
    ensures var exported, e := Raw(ScanItems(src.tree, k, end)), Encode(v.key, v.ts);
            && (e in exported <==> v in View(src.tree) && InRange(v.key, k, end))
            && (e in exported ==> exported[e] == View(src.tree)[v])
  {
    var items, e := ScanItems(src.tree, k, end), Encode(v.key, v.ts);
    forall a, b | a in View(src.tree) && b in View(src.tree) ensures !(a.key < b.key) {
      assert a in View(dst.tree) + View(src.tree) && b in View(dst.tree) + View(src.tree);
    }
    PrefixFreeScanExact(src.tree, k, end);
    ScanSound(src.tree, k, end);
    DecodeEncode(v.key, v.ts);
    ViewIsRaw(src.tree, v);
    if e in Raw(items) {
      var x := Item(e, Raw(items)[e]);
      RawMember(items, x);
      RawMember(src.tree, x);
    }
    if e in Raw(src.tree) && InRange(v.key, k, end) {
      var x := Item(e, Raw(src.tree)[e]);
      RawMember(src.tree, x);
      RawMember(items, x);
    }
  }

  lemma MovedPrefixFree(src: Node, dst: Node, k: bytes, end: Bound, moved: Tree)
    requires Movable(src, dst, k, end) && Moved(src, dst, k, end, moved)
    ensures PrefixFree(View(moved)) && PrefixFree(View(src.tree)) && PrefixFree(View(dst.tree))
  {
    var all := View(dst.tree) + View(src.tree);
    forall v | v in View(moved) ensures v in all { MovedView(src, dst, k, end, moved, v); }
    forall v, w | v in View(moved) && w in View(moved) ensures !(v.key < w.key) { assert v in all && w in all; }
    forall v, w | v in View(src.tree) && w in View(src.tree) ensures !(v.key < w.key) { assert v in all && w in all; }
    forall v, w | v in View(dst.tree) && w in View(dst.tree) ensures !(v.key < w.key) { assert v in all && w in all; }
  }

  /** Inside the range the destination now answers as the source does, elsewhere as it did before. */
  lemma MovedReads(src: Node, dst: Node, k: bytes, end: Bound, moved: Tree, key: bytes, readTs: Ts)
    requires Movable(src, dst, k, end) && Moved(src, dst, k, end, moved)
    ensures M.SeekGet(moved, dst.locks, key, readTs) ==
            if InRange(key, k, end) then M.SeekGet(src.tree, src.locks, key, readTs)
            else M.SeekGet(dst.tree, dst.locks, key, readTs)
  {
    var was := if InRange(key, k, end) then src.tree else dst.tree;
    MovedView(src, dst, k, end, moved, Version(key, 0));
    MovedPrefixFree(src, dst, k, end, moved);
    forall u: Ts ensures Version(key, u) in View(was) <==> Version(key, u) in View(moved)
                 ensures Version(key, u) in View(was) ==> View(was)[Version(key, u)] == View(moved)[Version(key, u)] {
      MovedView(src, dst, k, end, moved, Version(key, u));
    }
    SameVersionsSameRead(was, moved, key, readTs);
  }

  /** Routed reads survive a split with migration: export [k, end) from the owner of k, ingest it elsewhere,
      split at k with the old owner on the left and the new shard on the right. Every read of every key at
      every timestamp gives the same answer as before. */
  lemma RoutedReadsSurvive(rs: seq<Range>, nodes: Cluster, k: bytes, right: ShardId, moved: Tree, key: bytes,
                           readTs: Ts)
    requires Serves(rs, nodes) && right in nodes
    requires var t := rs[Target(rs, k)];
             Movable(nodes[t.shard], nodes[right], k, t.end) && Moved(nodes[t.shard], nodes[right], k, t.end, moved)
    ensures var rs', nodes' := Split(rs, Some(k), Owner(rs, k), right), nodes[right := nodes[right].(tree := moved)];
            Serves(rs', nodes') && RoutedGet(rs', nodes', key, readTs) == RoutedGet(rs, nodes, key, readTs)
  {
    var t := rs[Target(rs, k)];
    var rs', nodes' := Split(rs, Some(k), t.shard, right), nodes[right := nodes[right].(tree := moved)];
    SplitServes(rs, nodes, k, right, nodes[right].(tree := moved));
    InTarget(rs, k, key);
    SplitOwnership(rs, k, t.shard, right, key);
    var o, o' := Owner(rs, key), Owner(rs', key);
    if o' == right {
      MovedReads(nodes[t.shard], nodes[right], k, t.end, moved, key, readTs);
      assert if InRange(key, k, t.end) then o == t.shard else o == right;
    } else {
      assert o == o';
    }
  }

  lemma SplitServes(rs: seq<Range>, nodes: Cluster, k: bytes, right: ShardId, node: Node)
    requires Serves(rs, nodes) && right in nodes
    ensures Serves(Split(rs, Some(k), Owner(rs, k), right), nodes[right := node])
  {
    SplitKeepsPartition(rs, k, Owner(rs, k), right);
  }

  /** A key is in [k, end) of the range around k exactly when that range contains it and it is not below k. */
  lemma InTarget(rs: seq<Range>, k: bytes, key: bytes)
    requires Partition(rs)
    ensures var t := rs[Target(rs, k)];
            && (InRange(key, k, t.end) <==> Contains(t, key) && !Less(key, k))
            && (Contains(t, key) ==> Owner(rs, key) == t.shard)
  {
    var t := Target(rs, k);
    assert Contains(rs[t], k);
    if !Less(key, k) && rs[t].start.Some? {
      AtMostTransitive(rs[t].start.value, k, key);
    }
    if Contains(rs[t], key) {
      assert Owns(rs, t, key);
      OwnerExists(rs, key);
    }
  }

  /** The move carried out on two stores and the range map: export, ingest, split. */
  method MoveRange(meta: MetaStore, src: M.MemoryStore, dst: M.MemoryStore, k: bytes, end: Bound,
                   left: ShardId, right: ShardId)
    requires src.Valid() && dst.Valid() && src != dst && Partition(meta.ranges)
    requires Movable(Node(src.tree, src.locks), Node(dst.tree, dst.locks), k, end)
    modifies meta, dst`tree
    ensures Moved(old(Node(src.tree, src.locks)), old(Node(dst.tree, dst.locks)), k, end, dst.tree)
    ensures meta.ranges == Split(old(meta.ranges), Some(k), left, right)
  {
    var data := src.ScanRange(k, end);
    dst.Ingest(data);
    meta.Apply(SplitRange(Some(k), left, right));
  }
}
