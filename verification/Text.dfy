/** Separated fields and decimal numbers, as the standard library splits, joins, prints and scans them. */
module Text {
  import opened Bytes

  const SPACE: byte := 0x20

  const COMMA: byte := 0x2C

  // ---------- fields ----------

  /** strings.Split at a one-byte separator: adjacent separators enclose an empty field. */
  function Split(s: bytes, sep: byte): (fields: seq<bytes>)
    ensures |fields| > 0
  {
    if |s| == 0 then [[]]
    else
      var rest := Split(s[1..], sep);
      if s[0] == sep then [[]] + rest else [[s[0]] + rest[0]] + rest[1..]
  }

  /** strings.Join, and what the "%s %s" formats print. */
  function Join(fields: seq<bytes>, sep: byte): bytes {
    if |fields| == 0 then []
    else if |fields| == 1 then fields[0]
    else fields[0] + [sep] + Join(fields[1..], sep)
  }

  predicate Free(fields: seq<bytes>, sep: byte) {
    forall f :: f in fields ==> sep !in f
  }

  /** A field in front, closed by a separator, is split off; separators inside it make more fields. */
  lemma {:induction false} SplitField(f: bytes, tail: bytes, sep: byte)
    ensures sep !in f ==> Split(f + [sep] + tail, sep) == [f] + Split(tail, sep)
    ensures sep in f ==> |Split(f + [sep] + tail, sep)| > 1 + |Split(tail, sep)|
  {
    var s := f + [sep] + tail;
    if |f| == 0 {
      assert s[1..] == tail;
    } else {
      SplitField(f[1..], tail, sep);
      assert s[1..] == f[1..] + [sep] + tail;
      assert f == [f[0]] + f[1..];
    }
  }

  lemma {:induction false} SplitLast(f: bytes, sep: byte)
    ensures sep !in f ==> Split(f, sep) == [f]
    ensures sep in f ==> |Split(f, sep)| > 1
  {
    if |f| > 0 {
      SplitLast(f[1..], sep);
      assert f == [f[0]] + f[1..];
    }
  }

  /** Splitting what was joined gives the fields back if and only if none of them contains the separator;
      otherwise there are too many. */
  lemma {:induction false} SplitJoin(fields: seq<bytes>, sep: byte)
    requires |fields| > 0
    ensures Free(fields, sep) ==> Split(Join(fields, sep), sep) == fields
    ensures !Free(fields, sep) ==> |Split(Join(fields, sep), sep)| > |fields|
  {
    assert fields == [fields[0]] + fields[1..];
    if |fields| == 1 {
      SplitLast(fields[0], sep);
    } else {
      SplitJoin(fields[1..], sep);
      SplitField(fields[0], Join(fields[1..], sep), sep);
    }
  }

  /** Every text is the join of its fields, and no field contains the separator: with this, splitting is determined. */
  lemma {:induction false} JoinSplit(s: bytes, sep: byte)
    ensures Join(Split(s, sep), sep) == s && Free(Split(s, sep), sep)
  {
    if |s| > 0 {
      var fields, rest := Split(s, sep), Split(s[1..], sep);
      JoinSplit(s[1..], sep);
      assert s == [s[0]] + s[1..];
      if s[0] == sep {
        assert fields[1..] == rest;
      } else {
        assert fields[1..] == rest[1..];
        JoinPrepend([s[0]], rest, sep);
      }
    }
  }

  lemma JoinPrepend(a: bytes, fields: seq<bytes>, sep: byte)
    requires |fields| > 0
    ensures Join([a + fields[0]] + fields[1..], sep) == a + Join(fields, sep)
  {
    if |fields| > 1 {
      assert ([a + fields[0]] + fields[1..])[1..] == fields[1..];
      assert a + fields[0] + [sep] + Join(fields[1..], sep) == a + (fields[0] + [sep] + Join(fields[1..], sep));
    }
  }

  // ---------- numbers ----------

  predicate IsDigit(b: byte) {
    0x30 <= b <= 0x39
  }

  predicate AllDigits(s: bytes) {
    forall i :: 0 <= i < |s| ==> IsDigit(s[i])
  }

  /** fmt's %d of an unsigned number. */
  function Decimal(n: nat): (s: bytes)
    ensures |s| > 0 && AllDigits(s)
  {
    if n < 10 then [0x30 + n] else Decimal(n / 10) + [0x30 + n % 10]
  }

  function Parse(s: bytes): nat
    requires AllDigits(s)
  {
    if |s| == 0 then 0 else 10 * Parse(s[..|s| - 1]) + (s[|s| - 1] - 0x30)
  }

  function DigitPrefix(s: bytes): (d: bytes)
    ensures AllDigits(d) && d <= s
  {
    if |s| == 0 || !IsDigit(s[0]) then [] else [s[0]] + DigitPrefix(s[1..])
  }

  /** fmt.Sscanf with %d into a zero uint64: the leading digits, or 0 when there are none or too many. */
  function ScanUint64(s: bytes): (n: nat)
    ensures n <= 0xFFFF_FFFF_FFFF_FFFF
  {
    var d := DigitPrefix(s);
    if |d| == 0 || Parse(d) > 0xFFFF_FFFF_FFFF_FFFF then 0 else Parse(d)
  }

  lemma {:induction false} ParseDecimal(n: nat)
    ensures Parse(Decimal(n)) == n
  {
    var s := Decimal(n);
    if n < 10 {
      assert s[..0] == [];
    } else {
      assert s[..|s| - 1] == Decimal(n / 10);
      ParseDecimal(n / 10);
    }
  }

  /** 10 to the k. */
  function Power(k: nat): (p: nat)
    ensures p > 0
  {
    if k == 0 then 1 else 10 * Power(k - 1)
  }

  /** The digit with weight 10^k, counted from the right, is that of the number; there are no leading zeros. */
  lemma {:induction false} DecimalDigits(n: nat, k: nat)
    ensures var s := Decimal(n);
            && (k < |s| ==> s[|s| - 1 - k] == 0x30 + n / Power(k) % 10)
            && (|s| > 1 ==> s[0] != 0x30)
  {
    if n >= 10 {
      var s, front := Decimal(n), Decimal(n / 10);
      DecimalDigits(n / 10, if k > 0 then k - 1 else 0);
      DecimalDigits(n / 10, 0);
      assert s[0] == front[0];
      if n < 100 {
        assert front == [0x30 + n / 10];
      }
      if 0 < k < |s| {
        assert s[|s| - 1 - k] == front[|front| - 1 - (k - 1)];
        DivideTwice(n, Power(k - 1));
      }
    }
  }

  lemma DivideTwice(n: nat, p: nat)
    requires p > 0
    ensures n / 10 / p == n / (10 * p)
  {
    var q := n / (10 * p);
    var r := n - 10 * p * q;
    assert n == 10 * (p * q) + r && 0 <= r < 10 * p;
    assert n / 10 == p * q + r / 10 && 0 <= r / 10 < p;
    Quotient(n / 10, p, q, r / 10);
  }

  lemma Quotient(n: nat, p: nat, q: nat, r: nat)
    requires n == p * q + r && r < p
    ensures n / p == q
  {
    var d := n / p - q;
    assert p * d == r - n % p;
    MultipleGrows(p, d);
  }

  lemma MultipleGrows(p: nat, d: int)
    ensures d >= 1 ==> p * d >= p
    ensures d <= -1 ==> p * d + p <= 0
  {
  }

  /** Scanning stops at the first byte that is no digit; without a digit in front, and when the number does not fit
      into 64 bits, the result is 0. */
  lemma ScanLeading(n: nat, tail: bytes)
    requires |tail| > 0 ==> !IsDigit(tail[0])
    ensures ScanUint64(Decimal(n) + tail) == if n <= 0xFFFF_FFFF_FFFF_FFFF then n else 0
    ensures ScanUint64(tail) == 0
  {
    DigitPrefixThen(Decimal(n), tail);
    ParseDecimal(n);
  }

  lemma {:induction false} DigitPrefixThen(s: bytes, tail: bytes)
    requires AllDigits(s) && (|tail| > 0 ==> !IsDigit(tail[0]))
    ensures DigitPrefix(s + tail) == s
  {
    if |s| == 0 {
      assert s + tail == tail;
    } else {
      DigitPrefixThen(s[1..], tail);
      assert (s + tail)[1..] == s[1..] + tail;
      assert s == [s[0]] + s[1..];
    }
  }

  /** Printing and scanning a uint64. */
  lemma ScanDecimal(n: nat)
    requires n <= 0xFFFF_FFFF_FFFF_FFFF
    ensures ScanUint64(Decimal(n)) == n
    ensures SPACE !in Decimal(n)
  {
    assert Decimal(n) + [] == Decimal(n);
    ScanLeading(n, []);
  }
}
