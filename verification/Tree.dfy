/** The ordered tree the store keeps its encoded keys in, as a strictly ascending sequence of items. */
module Tree {
  import opened Bytes
  import opened Mvcc

  datatype Item = Item(key: bytes, value: bytes)
  type Tree = seq<Item>

  predicate Sorted(t: Tree) {
    forall i, j :: 0 <= i < j < |t| ==> Less(t[i].key, t[j].key)
  }

  /** Every item carries an encoded key. */
  predicate Encoded(t: Tree) {
    forall x :: x in t ==> |x.key| >= 8
  }

  predicate WellFormed(t: Tree) {
    Sorted(t) && Encoded(t)
  }

  /** ReplaceOrInsert. */
  function Insert(t: Tree, x: Item): Tree {
    if |t| == 0 || Less(x.key, t[0].key) then [x] + t
    else if x.key == t[0].key then [x] + t[1..]
    else [t[0]] + Insert(t[1..], x)
  }

  /** Delete. */
  function Remove(t: Tree, key: bytes): Tree {
    if |t| == 0 then []
    else if t[0].key == key then t[1..]
    else [t[0]] + Remove(t[1..], key)
  }

  /** Where AscendGreaterOrEqual starts: the first item whose key is at least pivot. */
  function Seek(t: Tree, pivot: bytes): (n: nat)
    ensures n <= |t|
    ensures forall i :: 0 <= i < n ==> Less(t[i].key, pivot)
    ensures n < |t| ==> AtMost(pivot, t[n].key)
  {
    if |t| == 0 || !Less(t[0].key, pivot) then 0 else 1 + Seek(t[1..], pivot)
  }

  /** The tree as a map from encoded keys to values. */
  ghost function Raw(t: Tree): map<bytes, bytes> {
    if |t| == 0 then map[] else Raw(t[1..])[t[0].key := t[0].value]
  }

  /** The tree as a map from versions to values. */
  ghost function View(t: Tree): map<Version, bytes> {
    if |t| == 0 then map[] else View(t[1..])[Decode(t[0].key) := t[0].value]
  }

  // ---------- the tree as a map ----------

  lemma TailKeys(t: Tree)
    requires Sorted(t) && |t| > 0
    ensures forall y :: y in t[1..] ==> y.key != t[0].key
  {
    forall i | 0 < i < |t| ensures t[i].key != t[0].key {
      LessAsymmetric(t[0].key, t[i].key);
    }
  }

  /** Putting a smaller item in front of part of a sorted tree's tail. */
  lemma SortedCons(t: Tree, u: Tree)
    requires Sorted(t) && |t| > 0 && Sorted(u)
    requires forall y :: y in u ==> y in t[1..]
    ensures Sorted([t[0]] + u)
  {
    forall y | y in u ensures Less(t[0].key, y.key) {
      var i :| 0 < i < |t| && t[i] == y;
    }
  }

  lemma {:induction false} RawMember(t: Tree, x: Item)
    requires Sorted(t)
    ensures x in t <==> x.key in Raw(t) && Raw(t)[x.key] == x.value
    ensures forall k :: k in Raw(t) ==> Item(k, Raw(t)[k]) in t
  {
    if |t| > 0 {
      RawMember(t[1..], x);
      TailKeys(t);
      assert t == [t[0]] + t[1..];
      assert forall k :: k in Raw(t) && k != t[0].key ==> k in Raw(t[1..]);
    }
  }

  /** A sorted tree is determined by its map. */
  lemma {:induction false} RawInjective(t: Tree, u: Tree)
    requires Sorted(t) && Sorted(u) && Raw(t) == Raw(u)
    ensures t == u
  {
    RawEmpty(t);
    RawEmpty(u);
    if |t| > 0 {
      RawMember(t, t[0]);
      RawMember(u, t[0]);
      assert t[0] in u;
      RawMember(u, u[0]);
      RawMember(t, u[0]);
      HeadIsLeast(t, u[0]);
      HeadIsLeast(u, t[0]);
      LessTotal(t[0].key, u[0].key);
      TailRaw(t);
      TailRaw(u);
      RawInjective(t[1..], u[1..]);
      assert t == [t[0]] + t[1..] && u == [u[0]] + u[1..];
    }
  }

  lemma RawEmpty(t: Tree)
    ensures |t| == 0 <==> Raw(t) == map[]
  {
    if |t| > 0 { assert t[0].key in Raw(t); }
  }

  lemma HeadIsLeast(t: Tree, x: Item)
    requires Sorted(t) && x in t
    ensures t[0] == x || (Less(t[0].key, x.key) && !Less(x.key, t[0].key))
  {
    var i :| 0 <= i < |t| && t[i] == x;
    if i > 0 { LessAsymmetric(t[0].key, t[i].key); }
  }

  lemma TailRaw(t: Tree)
    requires Sorted(t) && |t| > 0
    ensures t[0].key !in Raw(t[1..])
    ensures Raw(t[1..]) == Raw(t) - {t[0].key}
  {
    var m, k := Raw(t[1..]), t[0].key;
    assert k !in m by {
      TailKeys(t);
      RawMember(t[1..], t[0]);
    }
    assert m[k := t[0].value] - {k} == m;
  }

  lemma {:induction false} InsertItems(t: Tree, x: Item)
    ensures forall y :: y in Insert(t, x) ==> y == x || y in t
    ensures Raw(Insert(t, x)) == Raw(t)[x.key := x.value]
  {
    if |t| > 0 && !Less(x.key, t[0].key) && x.key != t[0].key {
      InsertItems(t[1..], x);
    }
  }

  lemma {:induction false} InsertSorted(t: Tree, x: Item)
    requires Sorted(t)
    ensures Sorted(Insert(t, x))
  {
    if |t| > 0 {
      if Less(x.key, t[0].key) {
        forall i | 0 < i < |t| ensures Less(x.key, t[i].key) { LessTransitive(x.key, t[0].key, t[i].key); }
      } else if x.key != t[0].key {
        LessTotal(x.key, t[0].key);
        InsertSorted(t[1..], x);
        InsertItems(t[1..], x);
        var u := Insert(t[1..], x);
        forall j | 0 <= j < |u| ensures Less(t[0].key, u[j].key) {
          assert u[j] in u;
          if u[j] != x { var i :| 0 < i < |t| && t[i] == u[j]; }
        }
      }
    }
  }

  lemma InsertSpec(t: Tree, x: Item)
    requires Sorted(t)
    ensures Sorted(Insert(t, x))
    ensures Raw(Insert(t, x)) == Raw(t)[x.key := x.value]
    ensures forall y :: y in Insert(t, x) ==> y == x || y in t
  {
    InsertItems(t, x);
    InsertSorted(t, x);
  }

  lemma {:induction false} RemoveSpec(t: Tree, key: bytes)
    requires Sorted(t)
    ensures Sorted(Remove(t, key))
    ensures Raw(Remove(t, key)) == Raw(t) - {key}
    ensures forall y :: y in Remove(t, key) ==> y in t
    ensures |Remove(t, key)| == |t| - (if key in Raw(t) then 1 else 0)
  {
    if |t| > 0 {
      TailRaw(t);
      if t[0].key != key {
        RemoveSpec(t[1..], key);
        SortedCons(t, Remove(t[1..], key));
      }
    }
  }

  // ---------- the tree as a map of versions ----------

  lemma {:induction false} ViewIsRaw(t: Tree, v: Version)
    requires Encoded(t)
    ensures v in View(t) <==> Encode(v.key, v.ts) in Raw(t)
    ensures v in View(t) ==> View(t)[v] == Raw(t)[Encode(v.key, v.ts)]
  {
    if |t| > 0 {
      assert t[0] in t;
      ViewIsRaw(t[1..], v);
      EncodeDecode(t[0].key);
      DecodeEncode(v.key, v.ts);
    }
  }

  /** Membership of a version, in terms of the items. */
  lemma ViewMember(t: Tree, v: Version)
    requires WellFormed(t)
    ensures v in View(t) <==> exists x :: x in t && Decode(x.key) == v
    ensures v in View(t) ==> Item(Encode(v.key, v.ts), View(t)[v]) in t
  {
    ViewIsRaw(t, v);
    DecodeEncode(v.key, v.ts);
    if v in View(t) {
      var x := Item(Encode(v.key, v.ts), View(t)[v]);
      RawMember(t, x);
    }
    forall x | x in t && Decode(x.key) == v ensures v in View(t) {
      EncodeDecode(x.key);
      RawMember(t, x);
    }
  }

  /** An item is its version's value. */
  lemma ItemInView(t: Tree, x: Item)
    requires WellFormed(t) && x in t
    ensures Decode(x.key) in View(t) && View(t)[Decode(x.key)] == x.value
  {
    EncodeDecode(x.key);
    RawMember(t, x);
    ViewIsRaw(t, Decode(x.key));
  }

  lemma InsertView(t: Tree, v: Version, value: bytes)
    requires WellFormed(t)
    ensures WellFormed(Insert(t, Item(Encode(v.key, v.ts), value)))
    ensures View(Insert(t, Item(Encode(v.key, v.ts), value))) == View(t)[v := value]
  {
    var x := Item(Encode(v.key, v.ts), value);
    var u := Insert(t, x);
    InsertSpec(t, x);
    forall w ensures w in View(u) <==> w == v || w in View(t)
             ensures w in View(u) ==> View(u)[w] == View(t)[v := value][w] {
      ViewIsRaw(u, w);
      ViewIsRaw(t, w);
      DecodeEncode(v.key, v.ts);
      DecodeEncode(w.key, w.ts);
    }
  }

  // ---------- positions ----------

  /** Position order is key order. */
  lemma PositionOrder(t: Tree, i: nat, j: nat)
    requires Sorted(t) && i < |t| && j < |t|
    ensures i < j <==> Less(t[i].key, t[j].key)
    ensures i == j <==> t[i].key == t[j].key
  {
    LessIrreflexive(t[i].key);
    if j < i { LessAsymmetric(t[j].key, t[i].key); }
  }

  /** An item is at or after the seek position exactly when its key is at least the pivot. */
  lemma SeekPosition(t: Tree, pivot: bytes, i: nat)
    requires Sorted(t) && i < |t|
    ensures Seek(t, pivot) <= i <==> AtMost(pivot, t[i].key)
  {
    var n := Seek(t, pivot);
    if n < i { AtMostTransitive(pivot, t[n].key, t[i].key) by { LessAsymmetric(t[n].key, t[i].key); } }
  }

  /** Versions of one key at increasing positions have decreasing timestamps, and conversely. */
  lemma SameKeyDescends(t: Tree, i: nat, j: nat)
    requires WellFormed(t) && i < |t| && j < |t|
    requires Decode(t[i].key).key == Decode(t[j].key).key
    ensures i < j <==> Decode(t[i].key).ts > Decode(t[j].key).ts
  {
    assert t[i] in t && t[j] in t;
    EncodeDecode(t[i].key);
    EncodeDecode(t[j].key);
    var v, w := Decode(t[i].key), Decode(t[j].key);
    NewestFirst(v.key, v.ts, w.ts);
    PositionOrder(t, i, j);
  }
}
