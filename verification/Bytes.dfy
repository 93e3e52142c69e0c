/** Byte strings, the order `bytes.Compare` puts on them, and fixed-width big-endian integers. */
module Bytes {

  type byte = x: int | 0 <= x < 256
  type bytes = seq<byte>

  datatype Option<+T> = None | Some(value: T)

  /** `bytes.Compare(a, b) < 0`: the first difference decides, and a proper prefix comes first. */
  predicate Less(a: bytes, b: bytes)
  {
    |b| > 0 && (|a| == 0 || a[0] < b[0] || (a[0] == b[0] && Less(a[1..], b[1..])))
  }

  /** `bytes.Compare(a, b) <= 0`. */
  predicate AtMost(a: bytes, b: bytes) {
    !Less(b, a)
  }

  lemma {:induction false} LessIrreflexive(a: bytes)
    ensures !Less(a, a)
  {
    if |a| > 0 { LessIrreflexive(a[1..]); }
  }

  lemma {:induction false} LessTransitive(a: bytes, b: bytes, c: bytes)
    requires Less(a, b) && Less(b, c)
    ensures Less(a, c)
  {
    if |a| > 0 && a[0] == b[0] == c[0] { LessTransitive(a[1..], b[1..], c[1..]); }
  }

  lemma {:induction false} LessTotal(a: bytes, b: bytes)
    ensures Less(a, b) || Less(b, a) || a == b
  {
    if |a| > 0 && |b| > 0 && a[0] == b[0] {
      LessTotal(a[1..], b[1..]);
      assert a == [a[0]] + a[1..] && b == [b[0]] + b[1..];
    }
  }

  lemma LessAsymmetric(a: bytes, b: bytes)
    requires Less(a, b)
    ensures !Less(b, a) && a != b
  {
    LessIrreflexive(a);
    if Less(b, a) { LessTransitive(a, b, a); }
  }

  /** Mixed transitivity of the strict and the weak order. */
  lemma AtMostTransitive(a: bytes, b: bytes, c: bytes)
    requires AtMost(a, b) && AtMost(b, c)
    ensures AtMost(a, c)
    ensures Less(a, b) || Less(b, c) ==> Less(a, c)
  {
    LessTotal(a, b);
    LessTotal(b, c);
    if Less(a, b) && Less(b, c) { LessTransitive(a, b, c); }
    if Less(a, c) { LessAsymmetric(a, c); }
    LessIrreflexive(a);
  }

  /** A common prefix does not influence the order. */
  lemma {:induction false} LessCommonPrefix(p: bytes, a: bytes, b: bytes)
    ensures Less(p + a, p + b) <==> Less(a, b)
  {
    if |p| == 0 {
      assert p + a == a && p + b == b;
    } else {
      LessCommonPrefix(p[1..], a, b);
      assert (p + a)[1..] == p[1..] + a && (p + b)[1..] == p[1..] + b;
    }
  }

  /** Two strings neither of which is a prefix of the other keep their order whatever is appended. */
  lemma {:induction false} LessDiverging(a: bytes, b: bytes, x: bytes, y: bytes)
    requires Less(a, b) && !(a <= b)
    ensures Less(a + x, b + y)
  {
    assert (a + x)[0] == a[0] && (b + y)[0] == b[0];
    if a[0] == b[0] {
      assert a == [a[0]] + a[1..] && b == [b[0]] + b[1..];
      LessDiverging(a[1..], b[1..], x, y);
      assert (a + x)[1..] == a[1..] + x && (b + y)[1..] == b[1..] + y;
    }
  }

  /** A proper prefix is smaller. */
  lemma {:induction false} ProperPrefixLess(a: bytes, b: bytes)
    requires a < b
    ensures Less(a, b)
  {
    if |a| > 0 {
      assert a[0] == b[0];
      assert a[1..] < b[1..];
      ProperPrefixLess(a[1..], b[1..]);
    }
  }

  /** Everything between two strings that share a prefix shares that prefix too. */
  lemma {:induction false} BetweenSharesPrefix(p: bytes, a: bytes, b: bytes, x: bytes)
    requires AtMost(p + a, x) && AtMost(x, p + b)
    ensures p <= x
  {
    if |p| > 0 {
      assert (p + a)[1..] == p[1..] + a && (p + b)[1..] == p[1..] + b;
      assert |x| > 0 && x[0] == p[0];
      BetweenSharesPrefix(p[1..], a, b, x[1..]);
      assert x == [x[0]] + x[1..] && p == [p[0]] + p[1..];
    }
  }

  /** Appending one byte to equally long strings. */
  lemma {:induction false} LessSnoc(a: bytes, b: bytes, p: byte, q: byte)
    requires |a| == |b|
    ensures Less(a + [p], b + [q]) <==> Less(a, b) || (a == b && p < q)
  {
    if |a| > 0 {
      assert (a + [p])[1..] == a[1..] + [p] && (b + [q])[1..] == b[1..] + [q];
      LessSnoc(a[1..], b[1..], p, q);
      assert a == [a[0]] + a[1..] && b == [b[0]] + b[1..];
    }
  }

  // ---------- big-endian integers ----------

  /** 256 to the n: the number of values of n bytes. */
  function Limit(n: nat): (r: nat)
    ensures r > 0
  {
    if n == 0 then 1 else 256 * Limit(n - 1)
  }

  /** The n low-order bytes of v, most significant first. */
  function BigEndian(v: nat, n: nat): (bs: bytes)
    ensures |bs| == n
  {
    if n == 0 then [] else BigEndian(v / 256, n - 1) + [v % 256]
  }

  function Number(bs: bytes): (v: nat)
    ensures v < Limit(|bs|)
  {
    if |bs| == 0 then 0 else 256 * Number(bs[..|bs| - 1]) + bs[|bs| - 1]
  }

  lemma {:induction false} NumberOfBigEndian(v: nat, n: nat)
    requires v < Limit(n)
    ensures Number(BigEndian(v, n)) == v
  {
    if n > 0 {
      NumberOfBigEndian(v / 256, n - 1);
      var bs := BigEndian(v, n);
      assert bs[..n - 1] == BigEndian(v / 256, n - 1);
    }
  }

  lemma {:induction false} BigEndianOfNumber(bs: bytes)
    ensures BigEndian(Number(bs), |bs|) == bs
  {
    if |bs| > 0 {
      var front := bs[..|bs| - 1];
      BigEndianOfNumber(front);
      assert Number(bs) / 256 == Number(front) && Number(bs) % 256 == bs[|bs| - 1];
      assert bs == front + [bs[|bs| - 1]];
    }
  }

  /** Byte order on equally wide big-endian integers is numeric order. */
  lemma {:induction false} BigEndianOrder(x: nat, y: nat, n: nat)
    requires x < Limit(n) && y < Limit(n)
    ensures Less(BigEndian(x, n), BigEndian(y, n)) <==> x < y
    decreases n
  {
    if n > 0 {
      BigEndianOrder(x / 256, y / 256, n - 1);
      NumberOfBigEndian(x / 256, n - 1);
      NumberOfBigEndian(y / 256, n - 1);
      LessSnoc(BigEndian(x / 256, n - 1), BigEndian(y / 256, n - 1), x % 256, y % 256);
    }
  }

  /** The leading bit of the most significant byte. */
  lemma {:induction false} BigEndianTopBit(v: nat, n: nat)
    requires n > 0 && v < Limit(n)
    ensures BigEndian(v, n)[0] >= 0x80 <==> v >= 0x80 * Limit(n - 1)
  {
    if n == 1 {
      assert Limit(1) == 256 * Limit(0) == 256;
      assert BigEndian(v, 1) == [] + [v % 256];
    } else {
      BigEndianTopBit(v / 256, n - 1);
      assert BigEndian(v, n)[0] == BigEndian(v / 256, n - 1)[0];
      assert Limit(n - 1) == 256 * Limit(n - 2);
    }
  }

  lemma LimitValues()
    ensures Limit(4) == 0x1_0000_0000
    ensures Limit(7) == 0x100_0000_0000_0000
    ensures Limit(8) == 0x1_0000_0000_0000_0000
  {
    assert Limit(1) == 0x100;
    assert Limit(2) == 0x1_0000;
    assert Limit(3) == 0x100_0000;
    assert Limit(4) == 0x1_0000_0000;
    assert Limit(5) == 0x100_0000_0000;
    assert Limit(6) == 0x1_0000_0000_0000;
    assert Limit(7) == 0x100_0000_0000_0000;
  }

  /** `binary.BigEndian.PutUint64` and `PutUint32`: writes the low-order n bytes of v at offset at. */
  method PutBigEndian(buf: array<byte>, at: nat, v: nat, n: nat)
    requires at + n <= buf.Length
    modifies buf
    ensures buf[at..at + n] == BigEndian(v, n)
    ensures buf[..at] == old(buf[..at]) && buf[at + n..] == old(buf[at + n..])
  {
    if n > 0 {
      buf[at + n - 1] := v % 256;
      PutBigEndian(buf, at, v / 256, n - 1);
      assert buf[at + n - 1..] == old(buf[at + n - 1..])[0 := v % 256];
      assert buf[at..at + n] == buf[at..at + n - 1] + [buf[at + n - 1]];
    }
  }
}
