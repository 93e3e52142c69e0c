/** Garbage collection of old versions in one pass over the tree. */
module Gc {
  import opened Bytes
  import opened Mvcc
  import opened Tree
  import opened Store
  import opened SeekRead

  /** The previous item already is a version of the same key at or below safeTs. */
  predicate Shadowed(prev: Option<Item>, x: Item, safeTs: Ts) {
    prev.Some? && UserKey(prev.value) == UserKey(x) && TsOf(prev.value) <= safeTs
  }

  /** What the pass keeps of t when prev is the item before it. */
  function Sweep(t: Tree, prev: Option<Item>, safeTs: Ts): Tree {
    if |t| == 0 then []
    else
      var rest := Sweep(t[1..], Some(t[0]), safeTs);
      if Shadowed(prev, t[0], safeTs) then rest else [t[0]] + rest
  }

  function Collect(t: Tree, safeTs: Ts): Tree {
    Sweep(t, None, safeTs)
  }

  function Before(t: Tree, i: nat): Option<Item>
    requires i < |t|
  {
    if i == 0 then None else Some(t[i - 1])
  }

  // ---------- what is kept ----------

  lemma {:induction false} SweepSorted(t: Tree, prev: Option<Item>, safeTs: Ts)
    requires Sorted(t)
    ensures Sorted(Sweep(t, prev, safeTs))
    ensures forall x :: x in Sweep(t, prev, safeTs) ==> x in t
    decreases |t|
  {
    if |t| > 0 {
      var rest := Sweep(t[1..], Some(t[0]), safeTs);
      SweepSorted(t[1..], Some(t[0]), safeTs);
      SortedCons(t, rest);
    }
  }

  lemma {:induction false} SweepAt(t: Tree, prev: Option<Item>, safeTs: Ts, i: nat)
    requires Sorted(t) && i < |t|
    ensures t[i] in Sweep(t, prev, safeTs) <==> !Shadowed(if i == 0 then prev else Some(t[i - 1]), t[i], safeTs)
    decreases |t|
  {
    TailKeys(t);
    SweepSorted(t[1..], Some(t[0]), safeTs);
    if i > 0 {
      SweepAt(t[1..], Some(t[0]), safeTs, i - 1);
      assert t[i] in t[1..];
    }
  }

  lemma CollectSubset(t: Tree, safeTs: Ts)
    requires WellFormed(t)
    ensures WellFormed(Collect(t, safeTs))
    ensures forall x :: x in Collect(t, safeTs) ==> x in t
  {
    SweepSorted(t, None, safeTs);
  }

  /** An item is kept unless its predecessor shadows it. */
  lemma CollectAt(t: Tree, safeTs: Ts, i: nat)
    requires WellFormed(t) && i < |t|
    ensures t[i] in Collect(t, safeTs) <==> !Shadowed(Before(t, i), t[i], safeTs)
  {
    SweepAt(t, None, safeTs, i);
  }

  /** A collected version is followed in time by another version of its key, still at or below safeTs. */
  lemma ShadowedIsOlder(t: Tree, i: nat, safeTs: Ts)
    requires WellFormed(t) && i < |t| && Shadowed(Before(t, i), t[i], safeTs)
    ensures i > 0 && UserKey(t[i - 1]) == UserKey(t[i]) && TsOf(t[i]) < TsOf(t[i - 1]) <= safeTs
  {
    SameKeyDescends(t, i - 1, i);
  }

  // ---------- safety ----------

  /** Collection removes versions only, none of them above safeTs, and does not change any read at or above
      safeTs: not the answer of the simple search, and not that of a correct seek either. No assumption on
      the keys is needed. */
  lemma CollectPreservesReads(t: Tree, safeTs: Ts, key: bytes, readTs: Ts)
    requires WellFormed(t) && readTs >= safeTs
    ensures NewestTs(View(Collect(t, safeTs)), key, readTs) == NewestTs(View(t), key, readTs)
    ensures ReadAt(View(Collect(t, safeTs)), key, readTs) == ReadAt(View(t), key, readTs)
    ensures MvccGet(t, key, readTs) == ReadAt(View(t), key, readTs) ==>
              MvccGet(Collect(t, safeTs), key, readTs) == MvccGet(t, key, readTs)
  {
    var u := Collect(t, safeTs);
    var m, n := View(t), View(u);
    CollectSubset(t, safeTs);
    CollectShrinks(t, safeTs);
    NewestSpec(m, key, readTs);
    if NewestTs(m, key, readTs).Some? {
      var ts := NewestTs(m, key, readTs).value;
      var i := PositionOf(t, Version(key, ts));
      if Shadowed(Before(t, i), t[i], safeTs) {
        ShadowedIsOlder(t, i, safeTs);
        ItemInView(t, t[i - 1]);
        assert false;
      }
      CollectAt(t, safeTs, i);
      ItemInView(u, t[i]);
      assert IsNewest(n, key, readTs, ts);
    }
    NewestUnique(n, key, readTs);
    SeekReadExact(t, key, readTs);
    SeekReadExact(u, key, readTs);
  }

  lemma CollectShrinks(t: Tree, safeTs: Ts)
    requires WellFormed(t)
    ensures forall v :: v in View(Collect(t, safeTs)) ==> v in View(t) && View(t)[v] == View(Collect(t, safeTs))[v]
    ensures forall v :: v in View(t) && v.ts > safeTs ==> v in View(Collect(t, safeTs))
  {
    var u := Collect(t, safeTs);
    CollectSubset(t, safeTs);
    forall v | v in View(u) ensures v in View(t) && View(t)[v] == View(u)[v] {
      var p := PositionOf(u, v);
      ItemInView(t, u[p]);
    }
    forall v | v in View(t) && v.ts > safeTs ensures v in View(u) {
      var i := PositionOf(t, v);
      if Shadowed(Before(t, i), t[i], safeTs) {
        ShadowedIsOlder(t, i, safeTs);
        assert false;
      }
      CollectAt(t, safeTs, i);
      ItemInView(u, t[i]);
    }
  }

  // ---------- exactness ----------

  /** Two neighbours with the same key descend in time. */
  predicate Descending(prev: Option<Item>, t: Tree) {
    && (prev.Some? && |t| > 0 && UserKey(prev.value) == UserKey(t[0]) ==> TsOf(t[0]) < TsOf(prev.value))
    && (forall i, j :: 0 <= i < |t| && j == i + 1 < |t| && UserKey(t[i]) == UserKey(t[j]) ==> TsOf(t[j]) < TsOf(t[i]))
  }

  lemma NeighboursDescend(t: Tree)
    requires WellFormed(t)
    ensures Descending(None, t)
  {
    forall i, j | 0 <= i < |t| && j == i + 1 < |t| && UserKey(t[i]) == UserKey(t[j]) ensures TsOf(t[j]) < TsOf(t[i]) {
      SameKeyDescends(t, i, j);
    }
  }

  /** The pass with the later safeTs cannot tell whether an earlier one already ran. */
  lemma {:induction false} SweepTwice(t: Tree, prev: Option<Item>, kept: Option<Item>, s1: Ts, s2: Ts)
    requires s1 <= s2 && Descending(prev, t)
    requires || prev == kept
             || (prev.Some? && kept.Some? && UserKey(prev.value) == UserKey(kept.value)
                 && TsOf(prev.value) <= s1 && TsOf(kept.value) <= s1)
    ensures Sweep(Sweep(t, prev, s1), kept, s2) == Sweep(t, prev, s2)
    decreases |t|
  {
    if |t| > 0 {
      assert Descending(Some(t[0]), t[1..]);
      var rest := Sweep(t[1..], Some(t[0]), s1);
      if Shadowed(prev, t[0], s1) {
        SweepTwice(t[1..], Some(t[0]), kept, s1, s2);
      } else {
        SweepTwice(t[1..], Some(t[0]), Some(t[0]), s1, s2);
        assert ([t[0]] + rest)[1..] == rest;
      }
    }
  }

  /** Collecting up to s1 and then up to a later s2 is collecting up to s2, and a repeated run deletes
      nothing, for every tree. */
  lemma CollectComposes(t: Tree, s1: Ts, s2: Ts)
    requires WellFormed(t) && s1 <= s2
    ensures Collect(Collect(t, s1), s2) == Collect(t, s2)
  {
    NeighboursDescend(t);
    SweepTwice(t, None, None, s1, s2);
  }

  /** Each key keeps at most one version at or below safeTs. */
  ghost predicate OneSnapshot(t: Tree, safeTs: Ts) {
    forall x, y :: x in t && y in t && UserKey(x) == UserKey(y) && TsOf(x) <= safeTs && TsOf(y) <= safeTs ==> x == y
  }

  /** No other key's item stands between two versions of one key at or below safeTs. */
  predicate SnapshotContiguous(t: Tree, safeTs: Ts) {
    forall i, j, k :: 0 <= i < j < k < |t| && UserKey(t[i]) == UserKey(t[k]) && TsOf(t[i]) <= safeTs ==>
                        UserKey(t[j]) == UserKey(t[i])
  }

  /** From a version at or below safeTs, walking back inside its run reaches a kept one. */
  lemma {:induction false} KeptInRun(t: Tree, i: nat, safeTs: Ts) returns (p: nat)
    requires WellFormed(t) && i < |t| && TsOf(t[i]) <= safeTs
    ensures p <= i && t[p] in Collect(t, safeTs) && TsOf(t[p]) <= safeTs
    ensures forall q :: p <= q <= i ==> UserKey(t[q]) == UserKey(t[i])
    decreases i
  {
    CollectAt(t, safeTs, i);
    p := i;
    if Shadowed(Before(t, i), t[i], safeTs) {
      ShadowedIsOlder(t, i, safeTs);
      p := KeptInRun(t, i - 1, safeTs);
    }
  }

  /** The pass leaves one snapshot version per key if and only if those versions were contiguous. */
  lemma CollectExact(t: Tree, safeTs: Ts)
    requires WellFormed(t)
    ensures OneSnapshot(Collect(t, safeTs), safeTs) <==> SnapshotContiguous(t, safeTs)
  {
    if SnapshotContiguous(t, safeTs) {
      ContiguousKeepsOne(t, safeTs);
    } else {
      var i, j, k :| && 0 <= i < j < k < |t| && UserKey(t[i]) == UserKey(t[k])
                     && TsOf(t[i]) <= safeTs && UserKey(t[j]) != UserKey(t[i]);
      InterruptedKeepsTwo(t, i, j, k, safeTs);
    }
  }

  lemma ContiguousKeepsOne(t: Tree, safeTs: Ts)
    requires WellFormed(t) && SnapshotContiguous(t, safeTs)
    ensures OneSnapshot(Collect(t, safeTs), safeTs)
  {
    var u := Collect(t, safeTs);
    CollectSubset(t, safeTs);
    forall x, y | x in u && y in u && UserKey(x) == UserKey(y) && TsOf(x) <= safeTs && TsOf(y) <= safeTs
      ensures x == y {
      assert x in t && y in t;
      var i :| 0 <= i < |t| && t[i] == x;
      var j :| 0 <= j < |t| && t[j] == y;
      KeptAreSame(t, i, j, safeTs);
    }
  }

  lemma KeptAreSame(t: Tree, i: nat, j: nat, safeTs: Ts)
    requires WellFormed(t) && SnapshotContiguous(t, safeTs) && i < |t| && j < |t|
    requires UserKey(t[i]) == UserKey(t[j]) && TsOf(t[i]) <= safeTs && TsOf(t[j]) <= safeTs
    requires t[i] in Collect(t, safeTs) && t[j] in Collect(t, safeTs)
    ensures i == j
  {
    CollectAt(t, safeTs, i);
    CollectAt(t, safeTs, j);
    if i < j {
      LaterIsShadowed(t, i, j, safeTs);
    } else if j < i {
      LaterIsShadowed(t, j, i, safeTs);
    }
  }

  lemma InterruptedKeepsTwo(t: Tree, i: nat, j: nat, k: nat, safeTs: Ts)
    requires WellFormed(t) && i < j < k < |t|
    requires UserKey(t[i]) == UserKey(t[k]) != UserKey(t[j]) && TsOf(t[i]) <= safeTs
    ensures !OneSnapshot(Collect(t, safeTs), safeTs)
  {
    SameKeyDescends(t, i, k);
    var p := KeptInRun(t, i, safeTs);
    var q := KeptInRun(t, k, safeTs);
    assert p < q;
    PositionOrder(t, p, q);
    assert t[p] != t[q] && UserKey(t[p]) == UserKey(t[q]);
  }

  /** Such trees exist: for every ASCII key and proper prefix of it, a version of the key between two of the
      prefix, of which collection leaves both. */
  lemma InterruptedTree(j: bytes, k: bytes, a: Ts, b: Ts) returns (t: Tree)
    requires j < k && Ascii(k) && a < LOW_TS
    ensures WellFormed(t) && View(t).Keys == {Version(j, MAX_TS), Version(k, b), Version(j, a)}
    ensures !SnapshotContiguous(t, MAX_TS) && !OneSnapshot(Collect(t, MAX_TS), MAX_TS)
  {
    ExtensionAfterNewest(j, k, b);
    t := ThreeVersions(j, k, a, b, MAX_TS, MAX_TS);
  }

  /** The newer version of the prefix may have any timestamp at which it sorts before the extension. */
  lemma ThreeVersions(j: bytes, k: bytes, a: Ts, b: Ts, c: Ts, safeTs: Ts) returns (t: Tree)
    requires j < k && Ascii(k) && a < LOW_TS && Less(Encode(j, c), Encode(k, b)) && c <= safeTs
    ensures WellFormed(t) && View(t).Keys == {Version(j, c), Version(k, b), Version(j, a)}
    ensures !SnapshotContiguous(t, safeTs) && !OneSnapshot(Collect(t, safeTs), safeTs)
  {
    LongerKeyFirst(j, k, a, b);
    EncodedItem(j, c, []);
    EncodedItem(k, b, []);
    EncodedItem(j, a, []);
    t := [Item(Encode(j, c), []), Item(Encode(k, b), []), Item(Encode(j, a), [])];
    ThreeItems(t);
    InterruptedAt(t, safeTs);
  }

  lemma EncodedItem(key: bytes, ts: Ts, value: bytes)
    ensures var x := Item(Encode(key, ts), value); |x.key| >= 8 && UserKey(x) == key && TsOf(x) == ts
  {
    DecodeEncode(key, ts);
  }

  lemma ThreeItems(t: Tree)
    requires |t| == 3 && |t[0].key| >= 8 && |t[1].key| >= 8 && |t[2].key| >= 8
    requires Less(t[0].key, t[1].key) && Less(t[1].key, t[2].key)
    ensures WellFormed(t) && View(t).Keys == {Decode(t[0].key), Decode(t[1].key), Decode(t[2].key)}
  {
    LessTransitive(t[0].key, t[1].key, t[2].key);
    forall v ensures v in View(t) <==> v == Decode(t[0].key) || v == Decode(t[1].key) || v == Decode(t[2].key) {
      ViewMember(t, v);
    }
  }

  lemma InterruptedAt(t: Tree, safeTs: Ts)
    requires WellFormed(t) && |t| == 3 && UserKey(t[0]) == UserKey(t[2]) != UserKey(t[1]) && TsOf(t[0]) <= safeTs
    ensures !SnapshotContiguous(t, safeTs) && !OneSnapshot(Collect(t, safeTs), safeTs)
  {
    InterruptedKeepsTwo(t, 0, 1, 2, safeTs);
    CollectExact(t, safeTs);
  }

  lemma ExtensionAfterNewest(j: bytes, k: bytes, b: Ts)
    requires j < k
    ensures Less(Encode(j, MAX_TS), Encode(k, b))
  {
    ProperPrefixLess(j, k);
    LessAsymmetric(j, k);
    AtOrAboveStart(j, k, b);
    LessTotal(Encode(j, MAX_TS), Encode(k, b));
    DecodeEncode(j, MAX_TS);
    DecodeEncode(k, b);
  }

  lemma LaterIsShadowed(t: Tree, i: nat, j: nat, safeTs: Ts)
    requires WellFormed(t) && SnapshotContiguous(t, safeTs) && i < j < |t|
    requires UserKey(t[i]) == UserKey(t[j]) && TsOf(t[i]) <= safeTs
    ensures Shadowed(Before(t, j), t[j], safeTs)
  {
    if i < j - 1 { SameKeyDescends(t, i, j - 1); }
  }

  /** Separate keys make the pass exact. */
  lemma CollectExactForSeparateKeys(t: Tree, safeTs: Ts)
    requires WellFormed(t) && PairwiseSeparate(View(t))
    ensures OneSnapshot(Collect(t, safeTs), safeTs)
  {
    SeparateContiguous(t);
    CollectExact(t, safeTs);
  }
}
