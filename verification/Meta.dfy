/** The range map of the cluster: splits in place, binary search, and the router's linear lookup. */
module Meta {
  import opened Bytes

  type ShardId = nat

  /** [start, end); no start is minus infinity, no end is plus infinity. */
  datatype Range = Range(start: Option<bytes>, end: Option<bytes>, shard: ShardId)

  datatype ShardConfig = ShardConfig(id: ShardId, addrs: seq<bytes>)

  datatype Command =
    | RegisterShard(config: ShardConfig)
    | UpdateRange
    | SplitRange(key: Option<bytes>, left: ShardId, right: ShardId)
    | UnknownOp

  /** bytes.Compare treats an absent key as empty. */
  function Plain(key: Option<bytes>): bytes {
    if key.Some? then key.value else []
  }

  predicate StartsAfter(r: Range, key: bytes) {
    r.start.Some? && Less(key, r.start.value)
  }

  predicate Contains(r: Range, key: bytes) {
    !StartsAfter(r, key) && (r.end.Some? ==> Less(key, r.end.value))
  }

  /** The bound a lies strictly before b, minus infinity first. */
  predicate StartLess(a: Option<bytes>, b: Option<bytes>) {
    b.Some? && (a.Some? ==> Less(a.value, b.value))
  }

  /** Sorted by start, each range ending where the next begins, unbounded at both sides. */
  ghost predicate Partition(rs: seq<Range>) {
    && |rs| > 0 && rs[0].start == None && rs[|rs| - 1].end == None
    && (forall i, j :: 0 <= i < j < |rs| ==> StartLess(rs[i].start, rs[j].start))
    && (forall i, j :: 0 <= i < |rs| && j == i + 1 < |rs| ==> rs[i].end == rs[j].start)
  }

  // ---------- lookup ----------

  /** The owner: the shard of the containing range. */
  ghost predicate Owns(rs: seq<Range>, i: nat, key: bytes) {
    i < |rs| && Contains(rs[i], key)
  }

  /** sort.Search for the first range that starts after the key. */
  method SearchAfter(rs: seq<Range>, key: bytes) returns (idx: nat)
    ensures idx <= |rs|
    ensures Partition(rs) ==> (forall i :: 0 <= i < idx ==> !StartsAfter(rs[i], key))
    ensures Partition(rs) ==> (forall i :: idx <= i < |rs| ==> StartsAfter(rs[i], key))
  {
    var i, j := 0, |rs|;
    while i < j
      invariant 0 <= i <= j <= |rs|
      invariant Partition(rs) ==> (forall k :: 0 <= k < i ==> !StartsAfter(rs[k], key))
      invariant Partition(rs) ==> (forall k :: j <= k < |rs| ==> StartsAfter(rs[k], key))
    {
      var h := (i + j) / 2;
      StartsMonotone(rs, h, key);
      if !StartsAfter(rs[h], key) {
        i := h + 1;
      } else {
        j := h;
      }
    }
    idx := i;
  }

  lemma StartsMonotone(rs: seq<Range>, h: nat, key: bytes)
    requires h < |rs|
    ensures Partition(rs) && StartsAfter(rs[h], key) ==> forall k :: h <= k < |rs| ==> StartsAfter(rs[k], key)
    ensures Partition(rs) && !StartsAfter(rs[h], key) ==> forall k :: 0 <= k <= h ==> !StartsAfter(rs[k], key)
  {
    if Partition(rs) {
      forall k | h < k < |rs| && StartsAfter(rs[h], key) ensures StartsAfter(rs[k], key) {
        LessTransitive(key, rs[h].start.value, rs[k].start.value);
      }
      forall k | 0 <= k < h && StartsAfter(rs[k], key) ensures StartsAfter(rs[h], key) {
        LessTransitive(key, rs[k].start.value, rs[h].start.value);
      }
    }
  }

  /** In a partition the last range that does not start after the key is the only one that contains it. */
  lemma OwnerIsLastStart(rs: seq<Range>, idx: nat, key: bytes)
    requires Partition(rs) && idx <= |rs|
    requires forall i :: 0 <= i < idx ==> !StartsAfter(rs[i], key)
    requires forall i :: idx <= i < |rs| ==> StartsAfter(rs[i], key)
    ensures idx > 0
    ensures forall i :: 0 <= i < |rs| ==> (Contains(rs[i], key) <==> i == idx - 1)
  {
    assert !StartsAfter(rs[0], key);
    forall i | 0 <= i < |rs| ensures Contains(rs[i], key) <==> i == idx - 1 {
      if i + 1 < |rs| { assert rs[i].end == rs[i + 1].start; assert StartLess(rs[i].start, rs[i + 1].start); }
    }
  }

  /** Every key lies in exactly one range. */
  lemma {:induction false} OwnerUnique(rs: seq<Range>, key: bytes, n: nat) returns (i: nat)
    requires Partition(rs) && n < |rs| && !StartsAfter(rs[n], key)
    ensures Owns(rs, i, key) && forall j :: Owns(rs, j, key) ==> j == i
    decreases |rs| - n
  {
    if n + 1 < |rs| && !StartsAfter(rs[n + 1], key) {
      i := OwnerUnique(rs, key, n + 1);
    } else {
      i := n;
      StartsMonotone(rs, n, key);
      if n + 1 < |rs| { StartsMonotone(rs, n + 1, key); }
      OwnerIsLastStart(rs, n + 1, key);
    }
  }

  lemma OwnerExists(rs: seq<Range>, key: bytes)
    requires Partition(rs)
    ensures exists i: nat :: Owns(rs, i, key)
    ensures forall i: nat, j: nat :: Owns(rs, i, key) && Owns(rs, j, key) ==> i == j
  {
    var i := OwnerUnique(rs, key, 0);
  }

  /** The position of the range that contains the key. */
  ghost function Target(rs: seq<Range>, key: bytes): (i: nat)
    requires Partition(rs)
    ensures Owns(rs, i, key)
  {
    OwnerExists(rs, key);
    var i: nat :| Owns(rs, i, key);
    i
  }

  ghost function Owner(rs: seq<Range>, key: bytes): ShardId
    requires Partition(rs)
  {
    rs[Target(rs, key)].shard
  }

  // ---------- splits ----------

  function SplitAt(rs: seq<Range>, t: nat, key: Option<bytes>, left: ShardId, right: ShardId): seq<Range>
    requires t < |rs|
  {
    rs[..t] + [Range(rs[t].start, key, left), Range(key, rs[t].end, right)] + rs[t + 1..]
  }

  /** A split replaces the range that contains the key, unless that range begins there. */
  ghost function Split(rs: seq<Range>, key: Option<bytes>, left: ShardId, right: ShardId): seq<Range>
    requires Partition(rs)
  {
    var t := Target(rs, Plain(key));
    if rs[t].start == Some(Plain(key)) then rs else SplitAt(rs, t, key, left, right)
  }

  /** What one command does to the range table, as long as the table is a partition. */
  ghost predicate Applied(before: seq<Range>, cmd: Command, after: seq<Range>) {
    if cmd.SplitRange? then Partition(before) ==> after == Split(before, cmd.key, cmd.left, cmd.right)
    else after == before
  }

  class MetaStore {
    var ranges: seq<Range>
    var shards: map<ShardId, ShardConfig>

    constructor ()
      ensures ranges == INITIAL == [Range(None, None, 1)] && shards == map[]
    {
      ranges, shards := INITIAL, map[];
    }

    method GetShard(key: bytes) returns (shard: ShardId)
      requires |ranges| > 0
      ensures Partition(ranges) ==> shard == Owner(ranges, key)
    {
      var idx := SearchAfter(ranges, key);
      if Partition(ranges) { OwnerIsLastStart(ranges, idx, key); }
      if idx == 0 {
        assert !Partition(ranges);
        if ranges[0].start == None {
          return ranges[0].shard;
        }
        return 0;
      }
      return ranges[idx - 1].shard;
    }

    method Apply(cmd: Command)
      requires |ranges| > 0
      modifies this
      ensures |ranges| > 0
      ensures Applied(old(ranges), cmd, ranges)
      ensures shards == if cmd.RegisterShard? then old(shards)[cmd.config.id := cmd.config] else old(shards)
    {
      match cmd
      case RegisterShard(config) =>
        shards := shards[config.id := config];
      case UpdateRange =>
      case SplitRange(key, left, right) =>
        var idx := SearchAfter(ranges, Plain(key));
        var targetIdx := if idx > 0 then idx - 1 else 0;
        var target := ranges[targetIdx];
        if Partition(ranges) { TargetFound(ranges, idx, Plain(key)); }
        if target.start.Some? && AtMost(Plain(key), target.start.value) {
          return;
        }
        if target.end.Some? && AtMost(target.end.value, Plain(key)) {
          return;
        }
        InsertInPlace(ranges, targetIdx, Range(target.start, key, left), Range(key, target.end, right));
        ranges := ranges[targetIdx := Range(target.start, key, left)];
        ranges := ranges + [ZERO];
        ranges := ranges[..targetIdx + 2] + ranges[targetIdx + 1..|ranges| - 1];
        ranges := ranges[targetIdx + 1 := Range(key, target.end, right)];
      case UnknownOp =>
    }
  }

  const ZERO: Range := Range(None, None, 0)

  /** Overwrite, append a zero entry, copy the tail one place up, overwrite: the entry has become two. */
  lemma InsertInPlace(rs: seq<Range>, t: nat, r1: Range, r2: Range)
    requires t < |rs|
    ensures var a := rs[t := r1] + [ZERO];
            (a[..t + 2] + a[t + 1..|a| - 1])[t + 1 := r2] == rs[..t] + [r1, r2] + rs[t + 1..]
  {
  }

  const INITIAL: seq<Range> := [Range(None, None, 1)]

  /** What the search finds is the containing range, which the key is not past and in which it can only
      coincide with the start. */
  lemma TargetFound(rs: seq<Range>, idx: nat, key: bytes)
    requires Partition(rs) && idx <= |rs|
    requires forall i :: 0 <= i < idx ==> !StartsAfter(rs[i], key)
    requires forall i :: idx <= i < |rs| ==> StartsAfter(rs[i], key)
    ensures idx > 0 && Target(rs, key) == idx - 1
    ensures var r := rs[idx - 1];
            && (r.start.Some? && AtMost(key, r.start.value) <==> r.start == Some(key))
            && !(r.end.Some? && AtMost(r.end.value, key))
  {
    OwnerIsLastStart(rs, idx, key);
    assert Contains(rs[Target(rs, key)], key);
    if rs[idx - 1].start.Some? {
      LessTotal(key, rs[idx - 1].start.value);
      LessIrreflexive(key);
    }
  }

  // ---------- what splits keep ----------

  lemma SplitKeepsPartition(rs: seq<Range>, key: bytes, left: ShardId, right: ShardId)
    requires Partition(rs)
    ensures Partition(Split(rs, Some(key), left, right))
  {
    var t := Target(rs, key);
    var n := Split(rs, Some(key), left, right);
    if rs[t].start != Some(key) {
      SplitBounds(rs, key);
      forall i, j | 0 <= i < j < |n| ensures StartLess(n[i].start, n[j].start) {
        SplitSorted(rs, key, left, right, i, j);
      }
    }
  }

  /** The split key lies strictly inside the target range. */
  lemma SplitBounds(rs: seq<Range>, key: bytes)
    requires Partition(rs) && rs[Target(rs, key)].start != Some(key)
    ensures StartLess(rs[Target(rs, key)].start, Some(key))
    ensures forall j :: Target(rs, key) < j < |rs| ==> StartLess(Some(key), rs[j].start)
  {
    var t := Target(rs, key);
    assert Contains(rs[t], key);
    if rs[t].start.Some? { LessTotal(key, rs[t].start.value); }
    forall j | t < j < |rs| ensures StartLess(Some(key), rs[j].start) {
      assert rs[t].end == rs[t + 1].start;
      assert StartLess(rs[t].start, rs[t + 1].start);
      if j > t + 1 { LessTransitive(key, rs[t + 1].start.value, rs[j].start.value); }
    }
  }

  lemma SplitSorted(rs: seq<Range>, key: bytes, left: ShardId, right: ShardId, i: nat, j: nat)
    requires Partition(rs) && rs[Target(rs, key)].start != Some(key)
    requires i < j < |rs| + 1
    ensures var n := SplitAt(rs, Target(rs, key), Some(key), left, right); StartLess(n[i].start, n[j].start)
  {
    SplitBounds(rs, key);
    var t := Target(rs, key);
    if i < t && j == t + 1 && rs[i].start.Some? && rs[t].start.Some? {
      LessTransitive(rs[i].start.value, rs[t].start.value, key);
    }
  }

  /** A split without a key is harmless only when some range starts at the empty key: otherwise the table
      gets two ranges from minus infinity, the first of them unbounded. */
  lemma NilSplit(rs: seq<Range>, left: ShardId, right: ShardId)
    requires Partition(rs)
    ensures Partition(Split(rs, None, left, right)) <==> exists i :: 0 <= i < |rs| && rs[i].start == Some([])
  {
    var t := Target(rs, []);
    var n := Split(rs, None, left, right);
    if i :| 0 <= i < |rs| && rs[i].start == Some([]) {
      LessIrreflexive([]);
      assert StartLess(rs[0].start, rs[i].start);
      OwnsItsStart(rs, i);
    } else {
      assert n[t].start == rs[t].start && n[t].end == None && n[t + 1].start == None;
    }
  }

  lemma OwnsItsStart(rs: seq<Range>, i: nat)
    requires Partition(rs) && i < |rs| && rs[i].start.Some?
    ensures Target(rs, rs[i].start.value) == i
  {
    var key := rs[i].start.value;
    LessIrreflexive(key);
    if i + 1 < |rs| { assert rs[i].end == rs[i + 1].start && StartLess(rs[i].start, rs[i + 1].start); }
    assert Owns(rs, i, key);
    OwnerExists(rs, key);
  }

  /** Any containing range is the target. */
  lemma TargetIs(rs: seq<Range>, i: nat, key: bytes)
    requires Partition(rs) && Owns(rs, i, key)
    ensures Target(rs, key) == i && Owner(rs, key) == rs[i].shard
  {
    OwnerExists(rs, key);
  }

  /** A split is rejected exactly when some range already starts at the key. */
  lemma SplitRejected(rs: seq<Range>, key: bytes, left: ShardId, right: ShardId)
    requires Partition(rs)
    ensures Split(rs, Some(key), left, right) == rs <==> exists i :: 0 <= i < |rs| && rs[i].start == Some(key)
  {
    if i :| 0 <= i < |rs| && rs[i].start == Some(key) {
      OwnsItsStart(rs, i);
    } else {
      assert |Split(rs, Some(key), left, right)| == |rs| + 1;
    }
  }

  /** A split changes ownership only inside the target range: left of the key to one shard, the rest to the
      other. A rejected split changes nothing. */
  lemma SplitOwnership(rs: seq<Range>, key: bytes, left: ShardId, right: ShardId, q: bytes)
    requires Partition(rs)
    ensures var n, t := Split(rs, Some(key), left, right), rs[Target(rs, key)];
            && Partition(n)
            && Owner(n, q) == if n == rs || !Contains(t, q) then Owner(rs, q) else if Less(q, key) then left else right
  {
    SplitKeepsPartition(rs, key, left, right);
    var n, t, p := Split(rs, Some(key), left, right), Target(rs, key), Target(rs, q);
    if rs[t].start != Some(key) {
      assert |n| == |rs| + 1;
      SplitOwns(rs, key, left, right, q);
      SplitEntry(rs, t, key, left, right, p);
      TargetIs(n, if p < t then p else if p > t then p + 1 else if Less(q, key) then t else t + 1, q);
      if Contains(rs[t], q) { TargetIs(rs, t, q); }
    }
  }

  /** Where the entries of the table are after a split. */
  lemma SplitEntry(rs: seq<Range>, t: nat, key: bytes, left: ShardId, right: ShardId, i: nat)
    requires t < |rs| && i < |rs|
    ensures var n := SplitAt(rs, t, Some(key), left, right);
            && |n| == |rs| + 1
            && n[t] == Range(rs[t].start, Some(key), left) && n[t + 1] == Range(Some(key), rs[t].end, right)
            && (i < t ==> n[i] == rs[i]) && (i > t ==> n[i + 1] == rs[i])
  {
  }

  lemma SplitOwns(rs: seq<Range>, key: bytes, left: ShardId, right: ShardId, q: bytes)
    requires Partition(rs)
    ensures var t, p := Target(rs, key), Target(rs, q);
            var n := SplitAt(rs, t, Some(key), left, right);
            Owns(n, if p < t then p else if p > t then p + 1 else if Less(q, key) then t else t + 1, q)
  {
    var t, p := Target(rs, key), Target(rs, q);
    SplitEntry(rs, t, key, left, right, p);
    assert Contains(rs[p], q);
  }

  // ---------- whole histories ----------

  /** The tables of a store from its creation on, one command at a time. */
  ghost predicate History(tables: seq<seq<Range>>, cmds: seq<Command>) {
    && |tables| == |cmds| + 1 && tables[0] == [Range(None, None, 1)]
    && forall i, j :: 0 <= i < |cmds| && j == i + 1 ==> Applied(tables[i], cmds[i], tables[j])
  }

  /** Any sequence of commands whose splits have a key keeps the table a partition of the key space. */
  lemma {:induction false} HistoryPartition(tables: seq<seq<Range>>, cmds: seq<Command>, n: nat)
    requires History(tables, cmds) && n < |tables|
    requires forall i :: 0 <= i < |cmds| && cmds[i].SplitRange? ==> cmds[i].key.Some?
    ensures Partition(tables[n])
  {
    if n > 0 {
      HistoryPartition(tables, cmds, n - 1);
      assert Applied(tables[n - 1], cmds[n - 1], tables[n]);
      var cmd := cmds[n - 1];
      if cmd.SplitRange? { SplitKeepsPartition(tables[n - 1], cmd.key.value, cmd.left, cmd.right); }
    }
  }

  /** A new table gives every key to shard 1. */
  method NewStoreOwns(key: bytes) returns (shard: ShardId)
    ensures shard == 1
  {
    var m := new MetaStore();
    shard := m.GetShard(key);
    assert Owns(m.ranges, Target(m.ranges, key), key);
  }

  // ---------- the router ----------

  datatype Router = Router(ranges: seq<Range>, shardAddrs: map<ShardId, bytes>) {

    /** The client-side lookup: the first range that contains the key. */
    method GetShardID(key: bytes) returns (shard: ShardId)
      ensures Partition(ranges) ==> shard == Owner(ranges, key)
      ensures (forall r :: r in ranges ==> !Contains(r, key)) ==> shard == 1
    {
      for i := 0 to |ranges|
        invariant forall j :: 0 <= j < i ==> !Contains(ranges[j], key)
      {
        var r := ranges[i];
        if r.start.Some? && Less(key, r.start.value) {
          continue;
        }
        if r.end.Some? && AtMost(r.end.value, key) {
          continue;
        }
        assert Owns(ranges, i, key);
        if Partition(ranges) { OwnerExists(ranges, key); }
        return r.shard;
      }
      if Partition(ranges) {
        OwnerExists(ranges, key);
        assert false;
      }
      return 1;
    }

    /** The address of the shard; an unknown shard has the empty address. */
    method Locate(key: bytes) returns (addr: bytes)
      ensures Partition(ranges) ==>
                addr == if Owner(ranges, key) in shardAddrs then shardAddrs[Owner(ranges, key)] else []
    {
      var id := GetShardID(key);
      addr := if id in shardAddrs then shardAddrs[id] else [];
    }
  }

  /** On a partition the store's binary search and the router's linear scan agree on every key. */
  method LookupsAgree(m: MetaStore, addrs: map<ShardId, bytes>, key: bytes) returns (a: ShardId, b: ShardId)
    requires Partition(m.ranges)
    ensures a == b == Owner(m.ranges, key)
  {
    a := m.GetShard(key);
    b := Router(m.ranges, addrs).GetShardID(key);
  }

  /** So they do on every table a store reaches by commands whose splits have a key. */
  method ReachableLookupsAgree(m: MetaStore, addrs: map<ShardId, bytes>, key: bytes,
                               ghost tables: seq<seq<Range>>, ghost cmds: seq<Command>)
    returns (a: ShardId, b: ShardId)
    requires History(tables, cmds) && m.ranges == tables[|cmds|]
    requires forall i :: 0 <= i < |cmds| && cmds[i].SplitRange? ==> cmds[i].key.Some?
    ensures Partition(m.ranges) && a == b == Owner(m.ranges, key)
  {
    HistoryPartition(tables, cmds, |cmds|);
    a, b := LookupsAgree(m, addrs, key);
  }
}
