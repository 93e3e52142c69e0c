/** Encoded MVCC keys: the user key followed by the inverted timestamp, and the order this induces. */
module Mvcc {
  import opened Bytes

  const MAX_TS: int := 0xFFFF_FFFF_FFFF_FFFF

  /** A uint64 timestamp. */
  type Ts = x: int | 0 <= x <= MAX_TS

  /** One version of a user key. */
  datatype Version = Version(key: bytes, ts: Ts)

  function Encode(key: bytes, ts: Ts): bytes {
    key + BigEndian(MAX_TS - ts, 8)
  }

  /** Splits an encoded key; a string too short to be one counts as a key at timestamp 0. */
  function Decode(joined: bytes): Version {
    if |joined| < 8 then Version(joined, 0)
    else
      var n := |joined| - 8;
      LimitValues();
      Version(joined[..n], MAX_TS - Number(joined[n..]))
  }

  /** Builds the encoded key in a fresh buffer. */
  method EncodeKey(key: bytes, ts: Ts) returns (buf: array<byte>)
    ensures fresh(buf)
    ensures buf[..] == Encode(key, ts)
  {
    buf := new byte[|key| + 8];
    forall i | 0 <= i < |key| { buf[i] := key[i]; }
    assert buf[..|key|] == key;
    PutBigEndian(buf, |key|, MAX_TS - ts, 8);
    assert buf[..] == buf[..|key|] + buf[|key|..|key| + 8];
  }

  // ---------- bijection ----------

  lemma DecodeEncode(key: bytes, ts: Ts)
    ensures Decode(Encode(key, ts)) == Version(key, ts)
  {
    LimitValues();
    NumberOfBigEndian(MAX_TS - ts, 8);
    var e := Encode(key, ts);
    assert e[..|key|] == key && e[|key|..] == BigEndian(MAX_TS - ts, 8);
  }

  lemma EncodeDecode(joined: bytes)
    requires |joined| >= 8
    ensures Encode(Decode(joined).key, Decode(joined).ts) == joined
  {
    LimitValues();
    var n := |joined| - 8;
    BigEndianOfNumber(joined[n..]);
    assert joined == joined[..n] + joined[n..];
  }

  /** A string too short to be encoded is taken for its own version at timestamp 0; otherwise different strings are
      different versions. */
  lemma DecodeCollides(x: bytes, y: bytes)
    ensures Decode(x) == Decode(y) <==>
            || x == y
            || (|x| < 8 && y == Encode(x, 0))
            || (|y| < 8 && x == Encode(y, 0))
  {
    DecodeEncode(x, 0);
    DecodeEncode(y, 0);
    if |x| >= 8 { EncodeDecode(x); }
    if |y| >= 8 { EncodeDecode(y); }
  }

  // ---------- order ----------

  /** Versions of one key sort newest first. */
  lemma NewestFirst(key: bytes, a: Ts, b: Ts)
    ensures Less(Encode(key, a), Encode(key, b)) <==> a > b
  {
    LimitValues();
    LessCommonPrefix(key, BigEndian(MAX_TS - a, 8), BigEndian(MAX_TS - b, 8));
    BigEndianOrder(MAX_TS - a, MAX_TS - b, 8);
  }

  /** Keys neither of which is a prefix of the other sort as keys, whatever the timestamps. */
  lemma DivergingOrder(j: bytes, k: bytes, a: Ts, b: Ts)
    requires !(j <= k) && !(k <= j)
    ensures Less(Encode(j, a), Encode(k, b)) <==> Less(j, k)
  {
    LessTotal(j, k);
    if Less(j, k) {
      LessDiverging(j, k, BigEndian(MAX_TS - a, 8), BigEndian(MAX_TS - b, 8));
    } else {
      LessDiverging(k, j, BigEndian(MAX_TS - b, 8), BigEndian(MAX_TS - a, 8));
      LessAsymmetric(Encode(k, b), Encode(j, a));
    }
  }

  /** All bytes of the key have a clear top bit. */
  predicate Ascii(key: bytes) {
    forall i :: 0 <= i < |key| ==> key[i] < 0x80
  }

  const LOW_TS: int := 0x8000_0000_0000_0000

  lemma SuffixTopBit(ts: Ts)
    ensures BigEndian(MAX_TS - ts, 8)[0] >= 0x80 <==> ts < LOW_TS
  {
    LimitValues();
    BigEndianTopBit(MAX_TS - ts, 8);
  }

  /** With ASCII keys and low timestamps the suffix acts as a terminator above every key byte:
      a key sorts after all its extensions, the opposite of the order on keys. */
  lemma LongerKeyFirst(j: bytes, k: bytes, a: Ts, b: Ts)
    requires j < k && Ascii(k) && a < LOW_TS
    ensures Less(Encode(k, b), Encode(j, a))
  {
    SuffixTopBit(a);
    var x, y := k[|j|..] + BigEndian(MAX_TS - b, 8), BigEndian(MAX_TS - a, 8);
    assert Encode(k, b) == j + x by { assert k == j + k[|j|..]; }
    assert x[0] == k[|j|] < 0x80 <= y[0];
    LessCommonPrefix(j, x, y);
  }

  /** The two keys cannot interleave: neither is a prefix of the other, or both are ASCII with low timestamps. */
  predicate Separate(key: bytes, ts: Ts, other: Version) {
    || (!(key <= other.key) && !(other.key <= key))
    || (key != other.key && Ascii(key) && Ascii(other.key) && ts < LOW_TS && other.ts < LOW_TS)
  }

  /** Only a key that extends this one, or that this one extends, can stand between two of its versions. */
  lemma BetweenIsPrefixRelated(key: bytes, newer: Ts, older: Ts, other: Version)
    requires other.key != key
    requires AtMost(Encode(key, newer), Encode(other.key, other.ts))
    requires AtMost(Encode(other.key, other.ts), Encode(key, older))
    ensures key < other.key || other.key < key
  {
    var e := Encode(other.key, other.ts);
    BetweenSharesPrefix(key, BigEndian(MAX_TS - newer, 8), BigEndian(MAX_TS - older, 8), e);
    if |key| < |other.key| {
      assert other.key[..|key|] == e[..|key|] == key;
    } else {
      assert key[..|other.key|] == e[..|other.key|] == other.key;
    }
  }

  /** A separate key's version never stands between two versions of this key. */
  lemma SeparateNotBetween(key: bytes, newer: Ts, older: Ts, other: Version)
    requires Separate(key, newer, other)
    ensures var e := Encode(other.key, other.ts); Less(e, Encode(key, newer)) || Less(Encode(key, older), e)
  {
    var e := Encode(other.key, other.ts);
    if AtMost(Encode(key, newer), e) && AtMost(e, Encode(key, older)) {
      BetweenIsPrefixRelated(key, newer, older, other);
      if key < other.key {
        LongerKeyFirst(key, other.key, newer, other.ts);
      } else {
        LongerKeyFirst(other.key, key, other.ts, older);
      }
    }
  }

  /** Every version of a key at or above start sorts at or after the scan start for that key. */
  lemma AtOrAboveStart(start: bytes, key: bytes, ts: Ts)
    requires AtMost(start, key)
    ensures AtMost(Encode(start, MAX_TS), Encode(key, ts))
  {
    LessTotal(start, key);
    if start <= key {
      var x := key[|start|..] + BigEndian(MAX_TS - ts, 8);
      assert Encode(key, ts) == start + x by { assert key == start + key[|start|..]; }
      ZeroesAreLeast(x, 8);
      LessCommonPrefix(start, x, BigEndian(0, 8));
    } else {
      LessDiverging(start, key, BigEndian(0, 8), BigEndian(MAX_TS - ts, 8));
      LessAsymmetric(Encode(start, MAX_TS), Encode(key, ts));
    }
  }

  lemma {:induction false} BigEndianZero(n: nat)
    ensures forall i :: 0 <= i < n ==> BigEndian(0, n)[i] == 0
  {
    if n > 0 { BigEndianZero(n - 1); }
  }

  lemma ZeroesAreLeast(x: bytes, n: nat)
    requires |x| >= n
    ensures AtMost(BigEndian(0, n), x)
  {
    BigEndianZero(n);
    LeastZeroes(BigEndian(0, n), x);
  }

  lemma {:induction false} LeastZeroes(z: bytes, x: bytes)
    requires |x| >= |z| && forall i :: 0 <= i < |z| ==> z[i] == 0
    ensures AtMost(z, x)
  {
    if |z| > 0 { LeastZeroes(z[1..], x[1..]); }
  }

  /** Of two encoded keys in order whose user keys are in the opposite order, the later one's user key
      is a proper prefix of the earlier one's. */
  lemma OutOfOrderIsPrefix(j: Version, k: Version)
    requires Less(Encode(j.key, j.ts), Encode(k.key, k.ts)) && Less(k.key, j.key)
    ensures k.key < j.key
  {
    if !(k.key <= j.key) {
      LessDiverging(k.key, j.key, BigEndian(MAX_TS - k.ts, 8), BigEndian(MAX_TS - j.ts, 8));
      LessAsymmetric(Encode(j.key, j.ts), Encode(k.key, k.ts));
      assert false;
    }
    LessIrreflexive(k.key);
    assert k.key != j.key;
    assert |k.key| == |j.key| ==> k.key == j.key;
  }
}
