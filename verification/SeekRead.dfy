/** The store's point read: seek to the encoded key and accept the first item if it is of the same user key. */
module SeekRead {
  import opened Bytes
  import opened Mvcc
  import opened Tree
  import opened Store

  function UserKey(x: Item): bytes {
    Decode(x.key).key
  }

  function TsOf(x: Item): Ts {
    Decode(x.key).ts
  }

  /** mvccGetLocked. */
  function MvccGet(t: Tree, key: bytes, readTs: Ts): Option<bytes> {
    var n := Seek(t, Encode(key, readTs));
    if n < |t| && UserKey(t[n]) == key then Some(t[n].value) else None
  }

  /** A stored version of another key sorts at or after the seek key and before the version the read is looking for. */
  ghost predicate Interloper(m: map<Version, bytes>, key: bytes, readTs: Ts) {
    NewestTs(m, key, readTs).Some? &&
    exists v :: v in m && Intercepts(v, key, readTs, NewestTs(m, key, readTs).value)
  }

  ghost predicate Intercepts(v: Version, key: bytes, readTs: Ts, newest: Ts) {
    v.key != key && AtMost(Encode(key, readTs), Encode(v.key, v.ts)) && Less(Encode(v.key, v.ts), Encode(key, newest))
  }

  /** The item at the seek position, if it is of the queried key, is the newest visible version. */
  lemma SeekHit(t: Tree, key: bytes, readTs: Ts)
    requires WellFormed(t)
    requires MvccGet(t, key, readTs).Some?
    ensures var x := t[Seek(t, Encode(key, readTs))]; NewestTs(View(t), key, readTs) == Some(TsOf(x))
    ensures MvccGet(t, key, readTs) == ReadAt(View(t), key, readTs)
  {
    var m, seek := View(t), Encode(key, readTs);
    var n := Seek(t, seek);
    var x := t[n];
    EncodeDecode(x.key);
    ItemInView(t, x);
    NewestFirst(key, readTs, TsOf(x));
    NewestFirst(key, TsOf(x), readTs);
    assert TsOf(x) <= readTs;
    forall u: Ts | Version(key, u) in m && u <= readTs ensures u <= TsOf(x) {
      var p := PositionOf(t, Version(key, u));
      NewestFirst(key, u, readTs);
      SeekPosition(t, seek, p);
      SameKeyDescends(t, n, p);
    }
    NewestUnique(m, key, readTs);
    assert IsNewest(m, key, readTs, TsOf(x));
  }

  /** The position of a stored version. */
  lemma PositionOf(t: Tree, v: Version) returns (p: nat)
    requires WellFormed(t) && v in View(t)
    ensures p < |t| && t[p] == Item(Encode(v.key, v.ts), View(t)[v])
    ensures Decode(t[p].key) == v
  {
    ViewMember(t, v);
    DecodeEncode(v.key, v.ts);
    p :| 0 <= p < |t| && t[p] == Item(Encode(v.key, v.ts), View(t)[v]);
  }

  /** The seek-based read never returns a wrong value, and it returns what the one-timestamp-at-a-time
      search returns if and only if no other key's version intercepts the seek. */
  lemma SeekReadExact(t: Tree, key: bytes, readTs: Ts)
    requires WellFormed(t)
    ensures MvccGet(t, key, readTs).Some? ==> MvccGet(t, key, readTs) == ReadAt(View(t), key, readTs)
    ensures MvccGet(t, key, readTs) == ReadAt(View(t), key, readTs) <==> !Interloper(View(t), key, readTs)
  {
    var m, seek := View(t), Encode(key, readTs);
    var n := Seek(t, seek);
    if MvccGet(t, key, readTs).Some? { SeekHit(t, key, readTs); }
    NewestSpec(m, key, readTs);
    if NewestTs(m, key, readTs).Some? {
      var ts := NewestTs(m, key, readTs).value;
      var j := PositionOf(t, Version(key, ts));
      NewestFirst(key, ts, readTs);
      SeekPosition(t, seek, j);
      if n < j {
        MissIntercepted(t, key, readTs, j);
      }
      forall v | v in m && Intercepts(v, key, readTs, ts) ensures n < j {
        var i := PositionOf(t, v);
        SeekPosition(t, seek, i);
        PositionOrder(t, i, j);
      }
    }
  }

  /** When the seek stops short of the newest version it stops at a version of another key. */
  lemma MissIntercepted(t: Tree, key: bytes, readTs: Ts, j: nat)
    requires WellFormed(t) && j < |t| && UserKey(t[j]) == key
    requires NewestTs(View(t), key, readTs) == Some(TsOf(t[j]))
    requires Seek(t, Encode(key, readTs)) < j
    ensures Interloper(View(t), key, readTs) && MvccGet(t, key, readTs) == None
  {
    var n := Seek(t, Encode(key, readTs));
    if MvccGet(t, key, readTs).Some? {
      SeekHit(t, key, readTs);
      SameKeyDescends(t, n, j);
      assert false;
    }
    var v := Decode(t[n].key);
    assert t[n] in t && t[j] in t;
    EncodeDecode(t[n].key);
    EncodeDecode(t[j].key);
    ItemInView(t, t[n]);
    PositionOrder(t, n, j);
    assert Intercepts(v, key, readTs, TsOf(t[j]));
  }

  /** Every other stored key is separate from the queried one: no prefix relation, or ASCII keys and low timestamps. */
  ghost predicate SeparateFrom(m: map<Version, bytes>, key: bytes, readTs: Ts) {
    forall v :: v in m && v.key != key ==> Separate(key, readTs, v)
  }

  /** The seek-based read refines the simple one whenever the queried key is separate from the stored ones. */
  lemma SeekReadCorrect(t: Tree, key: bytes, readTs: Ts)
    requires WellFormed(t) && SeparateFrom(View(t), key, readTs)
    ensures MvccGet(t, key, readTs) == ReadAt(View(t), key, readTs)
  {
    var m := View(t);
    SeekReadExact(t, key, readTs);
    if NewestTs(m, key, readTs).Some? {
      var newest := NewestTs(m, key, readTs).value;
      forall v | v in m && v.key != key ensures !Intercepts(v, key, readTs, newest) {
        SeparateNotBetween(key, readTs, newest, v);
        if Less(Encode(key, newest), Encode(v.key, v.ts)) { LessAsymmetric(Encode(key, newest), Encode(v.key, v.ts)); }
      }
    }
  }

  /** A key without versions is reported missing, whatever the other keys are. */
  lemma AbsentKeyRead(t: Tree, key: bytes, readTs: Ts)
    requires WellFormed(t)
    requires forall v :: v in View(t) ==> v.key != key
    ensures MvccGet(t, key, readTs) == None == ReadAt(View(t), key, readTs)
  {
    SeekReadExact(t, key, readTs);
    NewestSpec(View(t), key, readTs);
  }

  /** The read at the greatest timestamp misses every stored ASCII key that has a stored ASCII extension,
      when both were written at low timestamps. */
  lemma LatestReadMissesPrefixKey(t: Tree, key: bytes, longer: Version, ts: Ts)
    requires WellFormed(t) && Version(key, ts) in View(t) && longer in View(t)
    requires key < longer.key && Ascii(longer.key)
    requires forall u: Ts :: Version(key, u) in View(t) ==> u < LOW_TS
    ensures MvccGet(t, key, MAX_TS) == None
    ensures ReadAt(View(t), key, MAX_TS).Some?
  {
    var m := View(t);
    NewestSpec(m, key, MAX_TS);
    var newest := NewestTs(m, key, MAX_TS).value;
    ProperPrefixLess(key, longer.key);
    LessAsymmetric(key, longer.key);
    AtOrAboveStart(key, longer.key, longer.ts);
    LongerKeyFirst(key, longer.key, newest, longer.ts);
    assert Intercepts(longer, key, MAX_TS, newest);
    SeekReadExact(t, key, MAX_TS);
  }

  /** ASCII keys, all written at low timestamps. */
  ghost predicate AsciiLow(m: map<Version, bytes>) {
    forall v :: v in m ==> Ascii(v.key) && v.ts < LOW_TS
  }

  ghost predicate Stored(m: map<Version, bytes>, key: bytes) {
    exists v :: v in m && v.key == key
  }

  ghost predicate Extended(m: map<Version, bytes>, key: bytes) {
    exists v :: v in m && key < v.key
  }

  /** Among such keys the read at the greatest timestamp is intercepted exactly when the key is stored and
      has a stored extension. */
  lemma LatestInterloper(m: map<Version, bytes>, key: bytes)
    requires AsciiLow(m)
    ensures Interloper(m, key, MAX_TS) <==> Stored(m, key) && Extended(m, key)
  {
    NewestSpec(m, key, MAX_TS);
    if v :| v in m && v.key == key { assert Version(key, v.ts) in m; }
    if NewestTs(m, key, MAX_TS).Some? {
      var newest := NewestTs(m, key, MAX_TS).value;
      assert Version(key, newest) in m;
      forall v | v in m ensures Intercepts(v, key, MAX_TS, newest) <==> key < v.key {
        LatestIntercepts(key, newest, v);
      }
    }
  }

  lemma LatestIntercepts(key: bytes, newest: Ts, v: Version)
    requires Ascii(key) && newest < LOW_TS && Ascii(v.key) && v.ts < LOW_TS
    ensures Intercepts(v, key, MAX_TS, newest) <==> key < v.key
  {
    if key < v.key {
      ProperPrefixLess(key, v.key);
      LessAsymmetric(key, v.key);
      AtOrAboveStart(key, v.key, v.ts);
      LongerKeyFirst(key, v.key, newest, v.ts);
    } else if Intercepts(v, key, MAX_TS, newest) {
      LessAsymmetric(Encode(v.key, v.ts), Encode(key, newest));
      BetweenIsPrefixRelated(key, MAX_TS, newest, v);
      LongerKeyFirst(v.key, key, v.ts, newest);
      assert false;
    }
  }

  /** The read at the greatest timestamp misses such a key exactly when it is stored and has a stored
      extension. */
  lemma LatestReadExact(t: Tree, key: bytes)
    requires WellFormed(t) && AsciiLow(View(t))
    ensures MvccGet(t, key, MAX_TS) != ReadAt(View(t), key, MAX_TS) <==> Stored(View(t), key) && Extended(View(t), key)
    ensures Stored(View(t), key) && Extended(View(t), key) ==>
              MvccGet(t, key, MAX_TS) == None && ReadAt(View(t), key, MAX_TS).Some?
  {
    SeekReadExact(t, key, MAX_TS);
    LatestInterloper(View(t), key);
  }

  // ---------- contiguity ----------

  /** The versions of each key stand next to each other. */
  predicate Contiguous(t: Tree) {
    forall i, j, k :: 0 <= i < j < k < |t| && UserKey(t[i]) == UserKey(t[k]) ==> UserKey(t[j]) == UserKey(t[i])
  }

  /** Any two stored keys are separate. */
  ghost predicate PairwiseSeparate(m: map<Version, bytes>) {
    forall v, w :: v in m && w in m && v.key != w.key ==> Separate(v.key, v.ts, w)
  }

  lemma SeparateContiguous(t: Tree)
    requires WellFormed(t) && PairwiseSeparate(View(t))
    ensures Contiguous(t)
  {
    forall i, j, k | 0 <= i < j < k < |t| && UserKey(t[i]) == UserKey(t[k])
      ensures UserKey(t[j]) == UserKey(t[i]) {
      if UserKey(t[j]) != UserKey(t[i]) {
        ItemInView(t, t[i]);
        ItemInView(t, t[j]);
        EncodeDecode(t[i].key);
        EncodeDecode(t[j].key);
        EncodeDecode(t[k].key);
        SeparateNotBetween(UserKey(t[i]), TsOf(t[i]), TsOf(t[k]), Decode(t[j].key));
        PositionOrder(t, j, i);
        PositionOrder(t, k, j);
        assert false;
      }
    }
  }

  // ---------- order of the traversal ----------

  /** The traversal meets user keys in ascending order. */
  ghost predicate KeysAscend(t: Tree) {
    forall i, j :: 0 <= i < j < |t| ==> AtMost(UserKey(t[i]), UserKey(t[j]))
  }

  /** A version of an extension sorts before a version of its prefix. */
  ghost predicate OutOfOrder(v: Version, w: Version) {
    w.key < v.key && Less(Encode(v.key, v.ts), Encode(w.key, w.ts))
  }

  /** For all keys and timestamps, the traversal ascends if and only if no stored version of an extension sorts
      before a stored version of its prefix. */
  lemma AscendsExactly(t: Tree)
    requires WellFormed(t)
    ensures KeysAscend(t) <==> !exists v, w :: v in View(t) && w in View(t) && OutOfOrder(v, w)
  {
    if v, w :| v in View(t) && w in View(t) && OutOfOrder(v, w) {
      var i := PositionOf(t, v);
      var j := PositionOf(t, w);
      PositionOrder(t, i, j);
      ProperPrefixLess(w.key, v.key);
      assert !AtMost(UserKey(t[i]), UserKey(t[j]));
    }
    forall i, j | 0 <= i < j < |t| && !AtMost(UserKey(t[i]), UserKey(t[j]))
      ensures exists v, w :: v in View(t) && w in View(t) && OutOfOrder(v, w) {
      DescentIsOutOfOrder(t, i, j);
    }
  }

  lemma DescentIsOutOfOrder(t: Tree, i: nat, j: nat)
    requires WellFormed(t) && i < j < |t| && !AtMost(UserKey(t[i]), UserKey(t[j]))
    ensures Decode(t[i].key) in View(t) && Decode(t[j].key) in View(t)
    ensures OutOfOrder(Decode(t[i].key), Decode(t[j].key))
  {
    ItemInView(t, t[i]);
    ItemInView(t, t[j]);
    EncodeDecode(t[i].key);
    EncodeDecode(t[j].key);
    PositionOrder(t, i, j);
    OutOfOrderIsPrefix(Decode(t[i].key), Decode(t[j].key));
  }

  /** No stored key is a proper prefix of another. */
  ghost predicate PrefixFree(m: map<Version, bytes>) {
    forall v, w :: v in m && w in m ==> !(v.key < w.key)
  }

  /** With ASCII keys at low timestamps the traversal ascends if and only if the keys are prefix-free. */
  lemma AsciiAscendsExactly(t: Tree)
    requires WellFormed(t) && AsciiLow(View(t))
    ensures KeysAscend(t) <==> PrefixFree(View(t))
  {
    AscendsExactly(t);
    AsciiOutOfOrder(View(t));
  }

  lemma AsciiOutOfOrder(m: map<Version, bytes>)
    requires AsciiLow(m)
    ensures PrefixFree(m) <==> !exists v, w :: v in m && w in m && OutOfOrder(v, w)
  {
    if v, w :| v in m && w in m && w.key < v.key {
      LongerKeyFirst(w.key, v.key, w.ts, v.ts);
      assert OutOfOrder(v, w);
    }
  }

  /** Such trees exist: any ASCII key and a proper prefix of it written at a low timestamp. The traversal descends,
      and the latest read of the prefix misses it. */
  lemma PrefixPair(j: bytes, k: bytes, a: Ts, b: Ts, x: bytes, y: bytes) returns (t: Tree)
    requires j < k && Ascii(k) && a < LOW_TS
    ensures t == [Item(Encode(k, b), y), Item(Encode(j, a), x)] && WellFormed(t)
    ensures !KeysAscend(t)
    ensures MvccGet(t, j, MAX_TS) == None && ReadAt(View(t), j, MAX_TS) == Some(x)
  {
    t := [Item(Encode(k, b), y), Item(Encode(j, a), x)];
    LongerKeyFirst(j, k, a, b);
    DecodeEncode(j, a);
    DecodeEncode(k, b);
    ProperPrefixLess(j, k);
    assert !AtMost(UserKey(t[0]), UserKey(t[1]));
    assert t[0] in t && t[1] in t;
    ItemInView(t, t[0]);
    ItemInView(t, t[1]);
    forall u: Ts | Version(j, u) in View(t) ensures u == a {
      var p := PositionOf(t, Version(j, u));
    }
    LatestReadMissesPrefixKey(t, j, Version(k, b), a);
    NewestSpec(View(t), j, MAX_TS);
  }
}
