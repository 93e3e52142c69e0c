/** Raw scans over a range of user keys, stopping at the first decoded key past the end. */
module RangeScan {
  import opened Bytes
  import opened Mvcc
  import opened Tree
  import opened SeekRead

  /** A bound; None is unbounded. */
  type Bound = Option<bytes>

  predicate Past(key: bytes, end: Bound) {
    end.Some? && AtMost(end.value, key)
  }

  /** The items visited before the scan meets a key at or past the end. */
  function TakeBelow(t: Tree, end: Bound): Tree {
    if |t| == 0 || Past(UserKey(t[0]), end) then [] else [t[0]] + TakeBelow(t[1..], end)
  }

  lemma {:induction false} TakeBelowFrom(t: Tree, lo: nat, end: Bound) returns (hi: nat)
    requires lo <= |t|
    ensures lo <= hi <= |t| && TakeBelow(t[lo..], end) == t[lo..hi]
    ensures forall i :: lo <= i < hi ==> !Past(UserKey(t[i]), end)
    ensures hi < |t| ==> Past(UserKey(t[hi]), end)
    decreases |t| - lo
  {
    hi := lo;
    if lo < |t| && !Past(UserKey(t[lo]), end) {
      hi := TakeBelowFrom(t, lo + 1, end);
      assert t[lo..][1..] == t[lo + 1..];
      assert t[lo..hi] == [t[lo]] + t[lo + 1..hi];
    }
  }

  /** Scan(start, end): the items in reach of the callback. */
  function ScanItems(t: Tree, start: bytes, end: Bound): Tree {
    TakeBelow(t[Seek(t, Encode(start, MAX_TS))..], end)
  }

  /** The items handed to a callback that ends the scan when it returns false. */
  function Handed(items: Tree, more: Item -> bool): Tree {
    if |items| == 0 then []
    else if more(items[0]) then [items[0]] + Handed(items[1..], more)
    else [items[0]]
  }

  /** The first n items end with the first one refused, or are all and only the last may be refused. */
  predicate HandedUpTo(items: Tree, more: Item -> bool, n: nat)
    requires n <= |items|
  {
    && (forall i :: 0 <= i < n - 1 ==> more(items[i]))
    && (n == |items| || (n > 0 && !more(items[n - 1])))
  }

  lemma TakeSplit(items: Tree, n: nat)
    requires 0 < n <= |items|
    ensures items[..n] == [items[0]] + items[1..][..n - 1]
  {
  }

  /** They are the items up to and including the first one refused, or all of them. */
  lemma {:induction false} HandedExactly(items: Tree, more: Item -> bool, n: nat)
    requires n <= |items|
    ensures Handed(items, more) == items[..n] <==> HandedUpTo(items, more, n)
  {
    if |items| > 0 && n > 0 {
      HandedExactly(items[1..], more, n - 1);
      TakeSplit(items, n);
      UpToNext(items, more, n);
      if more(items[0]) {
        var rest, wanted := Handed(items[1..], more), items[1..][..n - 1];
        assert [items[0]] + rest == [items[0]] + wanted <==> rest == wanted by {
          assert ([items[0]] + rest)[1..] == rest && ([items[0]] + wanted)[1..] == wanted;
        }
      }
    }
  }

  lemma UpToNext(items: Tree, more: Item -> bool, n: nat)
    requires 0 < n <= |items|
    ensures HandedUpTo(items, more, n) <==> if more(items[0]) then HandedUpTo(items[1..], more, n - 1) else n == 1
  {
    if more(items[0]) && HandedUpTo(items[1..], more, n - 1) {
      forall i | 0 <= i < n - 1 ensures more(items[i]) {
        if i > 0 { assert items[i] == items[1..][i - 1]; }
      }
    }
  }

  /** A callback that never ends the scan is handed everything. */
  lemma {:induction false} HandedAll(items: Tree)
    ensures Handed(items, _ => true) == items
  {
    if |items| > 0 { HandedAll(items[1..]); }
  }

  predicate InRange(key: bytes, start: bytes, end: Bound) {
    AtMost(start, key) && !Past(key, end)
  }

  /** A stored key below the end has a stored extension at or past the end. */
  ghost predicate Straddled(m: map<Version, bytes>, end: Bound) {
    exists v, w :: v in m && w in m && v.key < w.key && !Past(v.key, end) && Past(w.key, end)
  }

  /** The visited items are t[lo..hi]: lo is the seek position, hi the first later position past the end. */
  ghost predicate Window(t: Tree, seek: bytes, end: Bound, lo: nat, hi: nat) {
    && lo <= hi <= |t|
    && (forall i :: 0 <= i < |t| ==> (lo <= i <==> AtMost(seek, t[i].key)))
    && (forall i :: lo <= i < hi ==> !Past(UserKey(t[i]), end))
    && (hi < |t| ==> Past(UserKey(t[hi]), end))
  }

  lemma ScanWindow(t: Tree, start: bytes, end: Bound) returns (lo: nat, hi: nat)
    requires Sorted(t)
    ensures Window(t, Encode(start, MAX_TS), end, lo, hi)
    ensures ScanItems(t, start, end) == t[lo..hi]
  {
    lo := Seek(t, Encode(start, MAX_TS));
    hi := TakeBelowFrom(t, lo, end);
    forall i | 0 <= i < |t| ensures lo <= i <==> AtMost(Encode(start, MAX_TS), t[i].key) {
      SeekPosition(t, Encode(start, MAX_TS), i);
    }
  }

  /** A scan visits only stored items from its start on, in order, and before its end. */
  lemma ScanSound(t: Tree, start: bytes, end: Bound)
    requires WellFormed(t)
    ensures WellFormed(ScanItems(t, start, end))
    ensures forall x :: x in ScanItems(t, start, end) ==>
              x in t && AtMost(Encode(start, MAX_TS), x.key) && !Past(UserKey(x), end)
  {
    var lo, hi := ScanWindow(t, start, end);
  }

  /** A stored version past the end stands between the scan's seek key and this version: the scan stops there. */
  ghost predicate Cut(m: map<Version, bytes>, start: bytes, end: Bound, v: Version) {
    exists w :: w in m && Cuts(w, start, end, v)
  }

  ghost predicate Cuts(w: Version, start: bytes, end: Bound, v: Version) {
    && Past(w.key, end)
    && AtMost(Encode(start, MAX_TS), Encode(w.key, w.ts)) && Less(Encode(w.key, w.ts), Encode(v.key, v.ts))
  }

  /** An item is visited exactly when it is at or after the seek key, not past the end and not cut off. */
  lemma VisitedExactly(t: Tree, start: bytes, end: Bound, x: Item)
    requires WellFormed(t) && x in t
    ensures x in ScanItems(t, start, end) <==>
            && AtMost(Encode(start, MAX_TS), x.key) && !Past(UserKey(x), end)
            && !Cut(View(t), start, end, Decode(x.key))
  {
    var v := Decode(x.key);
    EncodeDecode(x.key);
    ScanSound(t, start, end);
    if x in ScanItems(t, start, end) {
      forall w | w in View(t) ensures !Cuts(w, start, end, v) {
        if Cuts(w, start, end, v) { CutStops(t, start, end, w, x); }
      }
    } else if AtMost(Encode(start, MAX_TS), x.key) && !Past(UserKey(x), end) {
      var lo, hi := ScanWindow(t, start, end);
      var y := WindowMiss(t, Encode(start, MAX_TS), end, lo, hi, x);
      EncodeDecode(y.key);
      ItemInView(t, y);
      assert Cuts(Decode(y.key), start, end, v);
    }
  }

  lemma CutStops(t: Tree, start: bytes, end: Bound, w: Version, x: Item)
    requires WellFormed(t) && w in View(t) && |x.key| >= 8 && Cuts(w, start, end, Decode(x.key))
    ensures x !in ScanItems(t, start, end)
  {
    var p := PositionOf(t, w);
    EncodeDecode(x.key);
    ScanStops(t, start, end, t[p]);
    LessAsymmetric(t[p].key, x.key);
  }

  /** An item at or above the start and below the end that the scan misses has an extension that stopped it. */
  lemma ScanMiss(t: Tree, start: bytes, end: Bound, x: Item) returns (y: Item)
    requires WellFormed(t) && x in t && InRange(UserKey(x), start, end)
    requires x !in ScanItems(t, start, end)
    ensures y in t && UserKey(x) < UserKey(y) && Past(UserKey(y), end)
  {
    EncodeDecode(x.key);
    AtOrAboveStart(start, UserKey(x), TsOf(x));
    VisitedExactly(t, start, end, x);
    var w :| w in View(t) && Cuts(w, start, end, Decode(x.key));
    CutIsExtension(w, start, end, Decode(x.key));
    var p := PositionOf(t, w);
    y := t[p];
  }

  /** Only an extension of a key below the end can cut it off. */
  lemma CutIsExtension(w: Version, start: bytes, end: Bound, v: Version)
    requires Cuts(w, start, end, v) && !Past(v.key, end)
    ensures v.key < w.key
  {
    BelowThenPast(v.key, w.key, end);
    OutOfOrderIsPrefix(w, v);
  }

  lemma WindowMiss(t: Tree, seek: bytes, end: Bound, lo: nat, hi: nat, x: Item) returns (y: Item)
    requires Sorted(t) && Window(t, seek, end, lo, hi)
    requires x in t && x !in t[lo..hi] && AtMost(seek, x.key) && !Past(UserKey(x), end)
    ensures y in t && Past(UserKey(y), end) && AtMost(seek, y.key) && Less(y.key, x.key)
  {
    var p :| 0 <= p < |t| && t[p] == x;
    NotInSlice(t, lo, hi, p);
    y := t[hi];
  }

  lemma NotInSlice(t: Tree, lo: nat, hi: nat, p: nat)
    requires lo <= p < |t| && lo <= hi <= |t| && t[p] !in t[lo..hi]
    ensures hi <= p
  {
  }

  lemma BelowThenPast(j: bytes, k: bytes, end: Bound)
    requires !Past(j, end) && Past(k, end)
    ensures Less(j, k)
  {
    LessAsymmetric(j, end.value);
    AtMostTransitive(j, end.value, k);
  }

  /** The scan visits exactly the stored items whose key is in the range. */
  ghost predicate IsExact(t: Tree, start: bytes, end: Bound) {
    forall x :: x in ScanItems(t, start, end) <==> x in t && InRange(UserKey(x), start, end)
  }

  /** A version in the range is not cut off; one of a proper prefix of the start that the seek does not skip is. */
  ghost predicate CutRightly(m: map<Version, bytes>, start: bytes, end: Bound, v: Version) {
    && (InRange(v.key, start, end) ==> !Cut(m, start, end, v))
    && (v.key < start && !Past(v.key, end) && AtMost(Encode(start, MAX_TS), Encode(v.key, v.ts)) ==>
          Cut(m, start, end, v))
  }

  /** Exactly when the export of a range is the versions of the keys in it, for all keys and timestamps. */
  lemma ScanExact(t: Tree, start: bytes, end: Bound)
    requires WellFormed(t)
    ensures IsExact(t, start, end) <==> forall v :: v in View(t) ==> CutRightly(View(t), start, end, v)
  {
    if IsExact(t, start, end) {
      forall v | v in View(t) ensures CutRightly(View(t), start, end, v) {
        var p := PositionOf(t, v);
        ItemServed(t, start, end, t[p]);
      }
    } else {
      var x :| !(x in ScanItems(t, start, end) <==> x in t && InRange(UserKey(x), start, end));
      ScanSound(t, start, end);
      ItemInView(t, x);
      ItemServed(t, start, end, x);
      assert !CutRightly(View(t), start, end, Decode(x.key));
    }
  }

  /** One item is visited or not as the range demands. */
  lemma ItemServed(t: Tree, start: bytes, end: Bound, x: Item)
    requires WellFormed(t) && x in t
    ensures CutRightly(View(t), start, end, Decode(x.key)) <==>
            (x in ScanItems(t, start, end) <==> InRange(UserKey(x), start, end))
  {
    var v := Decode(x.key);
    EncodeDecode(x.key);
    VisitedExactly(t, start, end, x);
    if AtMost(start, v.key) {
      AtOrAboveStart(start, v.key, v.ts);
      if v.key < start {
        ProperPrefixLess(v.key, start);
        assert false;
      }
    } else if AtMost(Encode(start, MAX_TS), x.key) {
      BelowStart(start, v);
    }
  }

  /** A version of a key below the start that the seek does not skip is of a prefix of the start. */
  lemma BelowStart(start: bytes, v: Version)
    requires Less(v.key, start) && AtMost(Encode(start, MAX_TS), Encode(v.key, v.ts))
    ensures v.key < start
  {
    if !(v.key <= start) {
      LessAsymmetric(v.key, start);
      LessDiverging(v.key, start, BigEndian(MAX_TS - v.ts, 8), BigEndian(0, 8));
      assert false;
    }
    LessIrreflexive(start);
    assert |v.key| == |start| ==> v.key == start;
  }

  /** A condition on the stored keys alone: none is a proper prefix of the start, none extends past the end. */
  lemma UnstraddledScanExact(t: Tree, start: bytes, end: Bound)
    requires WellFormed(t)
    requires forall v :: v in View(t) ==> !(v.key < start)
    requires !Straddled(View(t), end)
    ensures IsExact(t, start, end)
  {
    forall v | v in View(t) ensures CutRightly(View(t), start, end, v) {
      if w :| InRange(v.key, start, end) && w in View(t) && Cuts(w, start, end, v) {
        CutIsExtension(w, start, end, v);
        assert false;
      }
    }
    ScanExact(t, start, end);
  }

  lemma PrefixFreeScanExact(t: Tree, start: bytes, end: Bound)
    requires WellFormed(t) && PrefixFree(View(t))
    requires forall v :: v in View(t) ==> !(v.key < start)
    ensures IsExact(t, start, end)
  {
    UnstraddledScanExact(t, start, end);
  }

  /** A key has a stored extension that is past the end and not skipped by the seek. The last conjunct holds of
      every key past the end when the start is not past it. */
  ghost predicate Overhangs(m: map<Version, bytes>, start: bytes, end: Bound, key: bytes) {
    exists w :: w in m && key < w.key && Past(w.key, end) && NotSkipped(start, w.key)
  }

  predicate NotSkipped(start: bytes, key: bytes) {
    AtMost(start, key) || key < start
  }

  ghost predicate OverhangsRightly(m: map<Version, bytes>, start: bytes, end: Bound, key: bytes) {
    && (InRange(key, start, end) ==> !Overhangs(m, start, end, key))
    && (key < start && !Past(key, end) ==> Overhangs(m, start, end, key))
  }

  /** With ASCII keys at low timestamps the export of a range is exact if and only if no stored key in the
      range has a stored extension past the end, and every stored proper prefix of the start below the end has
      one. */
  lemma AsciiScanExact(t: Tree, start: bytes, end: Bound)
    requires WellFormed(t) && AsciiLow(View(t)) && Ascii(start)
    ensures IsExact(t, start, end) <==>
            forall v :: v in View(t) ==> OverhangsRightly(View(t), start, end, v.key)
  {
    ScanExact(t, start, end);
    forall v | v in View(t)
      ensures CutRightly(View(t), start, end, v) <==> OverhangsRightly(View(t), start, end, v.key) {
      SkippedExactly(start, v);
      if !Past(v.key, end) { OverhangCuts(View(t), start, end, v); }
    }
  }

  lemma SkippedExactly(start: bytes, v: Version)
    requires Ascii(start) && v.ts < LOW_TS
    ensures AtMost(Encode(start, MAX_TS), Encode(v.key, v.ts)) <==> NotSkipped(start, v.key)
  {
    if AtMost(start, v.key) {
      AtOrAboveStart(start, v.key, v.ts);
    } else if v.key < start {
      LongerKeyFirst(v.key, start, v.ts, MAX_TS);
      LessAsymmetric(Encode(start, MAX_TS), Encode(v.key, v.ts));
    } else if AtMost(Encode(start, MAX_TS), Encode(v.key, v.ts)) {
      BelowStart(start, v);
      assert false;
    }
  }

  lemma OverhangCuts(m: map<Version, bytes>, start: bytes, end: Bound, v: Version)
    requires AsciiLow(m) && Ascii(start) && v in m && !Past(v.key, end)
    ensures Cut(m, start, end, v) <==> Overhangs(m, start, end, v.key)
  {
    forall w | w in m
      ensures Cuts(w, start, end, v) <==> v.key < w.key && Past(w.key, end) && NotSkipped(start, w.key) {
      SkippedExactly(start, w);
      if Cuts(w, start, end, v) { CutIsExtension(w, start, end, v); }
      if v.key < w.key { LongerKeyFirst(v.key, w.key, v.ts, w.ts); }
    }
  }

  /** ASCII keys at low timestamps are not enough: the export loses every version of a key in the range that
      has a stored extension at or past the end. */
  lemma StraddledKeyLost(t: Tree, start: bytes, end: Bound, x: Item, y: Item)
    requires WellFormed(t) && x in t && y in t
    requires AtMost(start, UserKey(x)) && UserKey(x) < UserKey(y) && Past(UserKey(y), end)
    requires Ascii(UserKey(y)) && TsOf(x) < LOW_TS
    ensures x !in ScanItems(t, start, end)
  {
    EncodeDecode(x.key);
    EncodeDecode(y.key);
    LongerKeyFirst(UserKey(x), UserKey(y), TsOf(x), TsOf(y));
    ProperPrefixLess(UserKey(x), UserKey(y));
    AtMostTransitive(start, UserKey(x), UserKey(y)) by { LessAsymmetric(UserKey(x), UserKey(y)); }
    AtOrAboveStart(start, UserKey(y), TsOf(y));
    LessAsymmetric(y.key, x.key);
    ScanStops(t, start, end, y);
  }

  /** Nothing from a stopping item on is visited. */
  lemma ScanStops(t: Tree, start: bytes, end: Bound, y: Item)
    requires WellFormed(t) && y in t && Past(UserKey(y), end) && AtMost(Encode(start, MAX_TS), y.key)
    ensures forall x :: x in ScanItems(t, start, end) ==> Less(x.key, y.key)
  {
    var lo, hi := ScanWindow(t, start, end);
    var q :| 0 <= q < |t| && t[q] == y;
    assert hi <= q;
  }
}
