/** The write-ahead log: length, data and checksum of each record, read back by a loop with early exits.
    The checksum is any function from byte strings to 32 bits. */
module Wal {
  import opened Bytes

  type Word = x: int | 0 <= x < 0x1_0000_0000
  type Checksum = bytes -> Word

  /** How a replay ends; a record the handler refuses has been delivered. */
  datatype Status = Complete | Eof | UnexpectedEof | Refused

  datatype Replayed = Replayed(records: seq<bytes>, status: Status)

  /** uint32(len(data)). */
  function Length(data: bytes): Word {
    |data| % 0x1_0000_0000
  }

  function Frame(crc: Checksum, data: bytes): bytes {
    BigEndian(Length(data), 4) + data + BigEndian(crc(data), 4)
  }

  function Log(crc: Checksum, rs: seq<bytes>): bytes {
    if |rs| == 0 then [] else Frame(crc, rs[0]) + Log(crc, rs[1..])
  }

  /** io.ReadFull falling short, with this much left to read. */
  function Short(left: nat): Status {
    if left == 0 then Eof else UnexpectedEof
  }

  /** The record at a position: none left, a failure, or its data and the position after it. */
  datatype Read = End | Failed(status: Status) | Record(data: bytes, next: nat)

  function ReadRecord(crc: Checksum, f: bytes, pos: nat): (r: Read)
    requires pos <= |f|
    ensures r.Record? ==> pos < r.next <= |f|
  {
    if pos == |f| then End
    else if |f| - pos < 4 then Failed(UnexpectedEof)
    else
      var start := pos + 4;
      var end := start + Number(f[pos..start]);
      if |f| < end then Failed(Short(|f| - start))
      else if |f| - end < 4 then Failed(Short(|f| - end))
      else if Number(f[end..end + 4]) != crc(f[start..end]) then Failed(UnexpectedEof)
      else Record(f[start..end], end + 4)
  }

  /** What Iterate delivers from a position on, and how it ends. */
  function Replay(crc: Checksum, accept: bytes -> bool, f: bytes, pos: nat): Replayed
    requires pos <= |f|
    decreases |f| - pos
  {
    match ReadRecord(crc, f, pos)
    case End => Replayed([], Complete)
    case Failed(status) => Replayed([], status)
    case Record(data, next) =>
      if !accept(data) then Replayed([data], Refused)
      else
        var more := Replay(crc, accept, f, next);
        Replayed([data] + more.records, more.status)
  }

  class WAL {
    var file: bytes
    var pos: nat
    const crc: Checksum

    constructor (crc: Checksum)
      ensures file == [] && pos == 0 && this.crc == crc
    {
      file, pos := [], 0;
      this.crc := crc;
    }

    /** The file is opened for appending: every write goes to its end. */
    method Append(data: bytes)
      modifies this
      ensures file == old(file) + Frame(crc, data) && pos == |file|
    {
      var head := PutUint32(Length(data));
      file := file + head;
      file := file + data;
      var sum := PutUint32(crc(data));
      file := file + sum;
      Appended(old(file), head, data, sum);
      pos := |file|;
    }

    method Iterate(accept: bytes -> bool) returns (records: seq<bytes>, status: Status)
      modifies this`pos
      ensures Replayed(records, status) == Replay(crc, accept, file, 0)
      ensures status == Complete ==> pos == |file|
    {
      pos := 0;
      records := [];
      ghost var all := Replay(crc, accept, file, 0);
      while true
        invariant pos <= |file|
        invariant all == Prepend(records, Replay(crc, accept, file, pos))
        decreases |file| - pos
      {
        var r := ReadNext(crc, file, pos);
        match r {
          case End =>
            pos := |file|;
            return records, Complete;
          case Failed(s) =>
            return records, s;
          case Record(data, next) =>
            if !accept(data) {
              return records + [data], Refused;
            }
            PrependNext(records, data, Replay(crc, accept, file, next));
            records := records + [data];
            pos := next;
        }
      }
    }
  }

  method PutUint32(v: Word) returns (b: bytes)
    ensures b == BigEndian(v, 4)
  {
    var buf := new byte[4];
    PutBigEndian(buf, 0, v, 4);
    b := buf[0..4];
  }

  lemma Appended(file: bytes, head: bytes, data: bytes, sum: bytes)
    ensures file + head + data + sum == file + (head + data + sum)
  {
  }

  /** One turn of the read loop. */
  method ReadNext(crc: Checksum, f: bytes, pos: nat) returns (r: Read)
    requires pos <= |f|
    ensures r == ReadRecord(crc, f, pos)
  {
    var at := pos;
    if |f| - at < 4 {
      return if |f| == at then End else Failed(UnexpectedEof);
    }
    var length := Number(f[at..at + 4]);
    at := at + 4;
    if |f| - at < length {
      return Failed(Short(|f| - at));
    }
    var data := f[at..at + length];
    at := at + length;
    if |f| - at < 4 {
      return Failed(Short(|f| - at));
    }
    var expected := Number(f[at..at + 4]);
    if crc(data) != expected {
      return Failed(UnexpectedEof);
    }
    return Record(data, at + 4);
  }

  ghost function Prepend(rs: seq<bytes>, r: Replayed): Replayed {
    r.(records := rs + r.records)
  }

  lemma PrependNext(rs: seq<bytes>, data: bytes, r: Replayed)
    ensures Prepend(rs, r.(records := [data] + r.records)) == Prepend(rs + [data], r)
  {
    assert rs + ([data] + r.records) == rs + [data] + r.records;
  }

  // ---------- round trip ----------

  /** Reading does not depend on what is in front of the position. */
  lemma ReadShift(crc: Checksum, front: bytes, f: bytes, pos: nat)
    requires pos <= |f|
    ensures var r := ReadRecord(crc, f, pos);
            ReadRecord(crc, front + f, |front| + pos) == if r.Record? then Record(r.data, |front| + r.next) else r
  {
    if |f| - pos >= 4 {
      var start := pos + 4;
      SliceShift(front, f, pos, start);
      var end := start + Number(f[pos..start]);
      if end + 4 <= |f| {
        SliceShift(front, f, start, end);
        SliceShift(front, f, end, end + 4);
      }
    }
  }

  lemma SliceShift(front: bytes, f: bytes, lo: nat, hi: nat)
    requires lo <= hi <= |f|
    ensures (front + f)[|front| + lo..|front| + hi] == f[lo..hi]
  {
  }

  lemma {:induction false} ReplayShift(crc: Checksum, accept: bytes -> bool, front: bytes, f: bytes, pos: nat)
    requires pos <= |f|
    ensures Replay(crc, accept, front + f, |front| + pos) == Replay(crc, accept, f, pos)
    decreases |f| - pos
  {
    ReadShift(crc, front, f, pos);
    var r := ReadRecord(crc, f, pos);
    if r.Record? { ReplayShift(crc, accept, front, f, r.next); }
  }

  lemma Slices(a: bytes, b: bytes, c: bytes, d: bytes)
    ensures var f, i, j := a + b + c + d, |a|, |a| + |b|;
            f[0..i] == a && f[i..j] == b && f[j..j + |c|] == c
  {
  }

  /** A whole record in front is read back. */
  lemma ReadFrame(crc: Checksum, data: bytes, tail: bytes)
    requires |data| < 0x1_0000_0000
    ensures ReadRecord(crc, Frame(crc, data) + tail, 0) == Record(data, |Frame(crc, data)|)
  {
    WordRoundTrip(Length(data));
    WordRoundTrip(crc(data));
    ReadParts(crc, BigEndian(Length(data), 4), data, BigEndian(crc(data), 4), tail);
  }

  lemma WordRoundTrip(v: Word)
    ensures Number(BigEndian(v, 4)) == v
  {
    LimitValues();
    NumberOfBigEndian(v, 4);
  }

  lemma ReadParts(crc: Checksum, head: bytes, data: bytes, sum: bytes, tail: bytes)
    requires |head| == 4 && |sum| == 4 && Number(head) == |data| && Number(sum) == crc(data)
    ensures ReadRecord(crc, head + data + sum + tail, 0) == Record(data, 4 + |data| + 4)
  {
    Slices(head, data, sum, tail);
  }

  lemma ReplayFrame(crc: Checksum, accept: bytes -> bool, data: bytes, tail: bytes)
    requires |data| < 0x1_0000_0000
    ensures Replay(crc, accept, Frame(crc, data) + tail, 0) ==
            if accept(data) then Prepend([data], Replay(crc, accept, tail, 0)) else Replayed([data], Refused)
  {
    ReadFrame(crc, data, tail);
    ReplayShift(crc, accept, Frame(crc, data), tail, 0);
  }

  /** How the replay of a record of this size ends when only n bytes of it are there: a cut right before the data
      or right before the checksum looks like the end of the file to the reader of that part. */
  ghost function CutStatus(size: nat, n: nat): Status {
    if n == 0 then Complete else if n == 4 || n == 4 + size then Eof else UnexpectedEof
  }

  /** Nothing is delivered from a cut record. */
  lemma ReplayTorn(crc: Checksum, accept: bytes -> bool, data: bytes, n: nat)
    requires |data| < 0x1_0000_0000 && n < |Frame(crc, data)|
    ensures Replay(crc, accept, Frame(crc, data)[..n], 0) == Replayed([], CutStatus(|data|, n))
  {
    WordRoundTrip(Length(data));
    var f := Frame(crc, data)[..n];
    if n >= 4 { assert f[0..4] == BigEndian(Length(data), 4); }
  }

  /** The log cut after n bytes holds m whole records. */
  ghost predicate Holds(crc: Checksum, rs: seq<bytes>, n: nat, m: nat) {
    && m <= |rs| && |Log(crc, rs[..m])| <= n
    && (m < |rs| ==> n < |Log(crc, rs[..m + 1])|)
  }

  predicate AllShort(rs: seq<bytes>) {
    forall r :: r in rs ==> |r| < 0x1_0000_0000
  }

  /** How a replay ends that has m whole records and then some bytes of the next one. */
  ghost function EndsAs(crc: Checksum, rs: seq<bytes>, n: nat, m: nat): Status
    requires Holds(crc, rs, n, m)
  {
    if m == |rs| then Complete else CutStatus(|rs[m]|, n - |Log(crc, rs[..m])|)
  }

  /** The replay of the log cut after n bytes delivers its m whole records. */
  ghost predicate Delivers(crc: Checksum, accept: bytes -> bool, rs: seq<bytes>, n: nat, m: nat)
    requires n <= |Log(crc, rs)|
  {
    && Holds(crc, rs, n, m)
    && Replay(crc, accept, Log(crc, rs)[..n], 0) == Replayed(rs[..m], EndsAs(crc, rs, n, m))
  }

  /** Over any prefix of a log the replay delivers exactly the complete records in it, never a partial one, and
      ends as the place of the cut in the next record says: complete if and only if the cut is on a boundary. */
  lemma {:induction false} ReplayTruncated(crc: Checksum, accept: bytes -> bool, rs: seq<bytes>, n: nat)
    returns (m: nat)
    requires AllShort(rs) && (forall r :: r in rs ==> accept(r)) && n <= |Log(crc, rs)|
    ensures Delivers(crc, accept, rs, n, m)
  {
    m := 0;
    if |rs| > 0 {
      assert rs[0] in rs;
      if n < |Frame(crc, rs[0])| {
        CutFirst(crc, accept, rs, n);
      } else {
        var k := ReplayTruncated(crc, accept, rs[1..], n - |Frame(crc, rs[0])|);
        CutLater(crc, accept, rs, n, k);
        m := k + 1;
      }
    }
  }

  lemma CutFirst(crc: Checksum, accept: bytes -> bool, rs: seq<bytes>, n: nat)
    requires |rs| > 0 && |rs[0]| < 0x1_0000_0000 && n < |Frame(crc, rs[0])|
    ensures n <= |Log(crc, rs)| && Delivers(crc, accept, rs, n, 0)
  {
    CutFront(Frame(crc, rs[0]), Log(crc, rs[1..]), n);
    ReplayTorn(crc, accept, rs[0], n);
    LogPrefix(crc, rs, 0);
  }

  lemma CutFront(a: bytes, b: bytes, n: nat)
    requires n <= |a|
    ensures (a + b)[..n] == a[..n]
  {
  }

  lemma CutLater(crc: Checksum, accept: bytes -> bool, rs: seq<bytes>, n: nat, k: nat)
    requires |rs| > 0 && |rs[0]| < 0x1_0000_0000 && accept(rs[0]) && |Frame(crc, rs[0])| <= n <= |Log(crc, rs)|
    requires Delivers(crc, accept, rs[1..], n - |Frame(crc, rs[0])|, k)
    ensures Delivers(crc, accept, rs, n, k + 1)
  {
    LogCut(crc, rs, n);
    ReplayFrame(crc, accept, rs[0], Log(crc, rs[1..])[..n - |Frame(crc, rs[0])|]);
    TakeNext(rs, k);
    LaterHolds(crc, rs, n, k);
    LogPrefix(crc, rs, k);
  }

  lemma LaterHolds(crc: Checksum, rs: seq<bytes>, n: nat, k: nat)
    requires |rs| > 0 && |Frame(crc, rs[0])| <= n && Holds(crc, rs[1..], n - |Frame(crc, rs[0])|, k)
    ensures Holds(crc, rs, n, k + 1)
  {
    LogPrefix(crc, rs, k);
    if k + 1 < |rs| { LogPrefix(crc, rs, k + 1); }
  }

  lemma LogCut(crc: Checksum, rs: seq<bytes>, n: nat)
    requires |rs| > 0 && |Frame(crc, rs[0])| <= n <= |Log(crc, rs)|
    ensures Log(crc, rs)[..n] == Frame(crc, rs[0]) + Log(crc, rs[1..])[..n - |Frame(crc, rs[0])|]
  {
    CutConcat(Frame(crc, rs[0]), Log(crc, rs[1..]), n);
  }

  lemma CutConcat(a: bytes, b: bytes, n: nat)
    requires |a| <= n <= |a + b|
    ensures (a + b)[..n] == a + b[..n - |a|]
  {
  }

  /** The size of the log of the first k + 1 records. */
  lemma LogPrefix(crc: Checksum, rs: seq<bytes>, k: nat)
    requires k < |rs|
    ensures |Log(crc, rs[..k + 1])| == |Frame(crc, rs[0])| + |Log(crc, rs[1..][..k])|
    ensures Log(crc, rs[..0]) == []
  {
    assert rs[..k + 1][1..] == rs[1..][..k];
  }

  /** Replaying a whole log delivers exactly what was appended if and only if every record is shorter than
      2^32 bytes; a longer one has its length cut to 32 bits. */
  lemma {:induction false} RoundTrip(crc: Checksum, accept: bytes -> bool, rs: seq<bytes>)
    requires forall r :: r in rs ==> accept(r)
    ensures Replay(crc, accept, Log(crc, rs), 0) == Replayed(rs, Complete) <==> AllShort(rs)
  {
    if |rs| > 0 {
      assert rs[0] in rs;
      assert rs == [rs[0]] + rs[1..];
      if |rs[0]| < 0x1_0000_0000 {
        RoundTrip(crc, accept, rs[1..]);
        ReplayFrame(crc, accept, rs[0], Log(crc, rs[1..]));
      } else {
        ReplayLong(crc, accept, rs[0], Log(crc, rs[1..]));
      }
    }
  }

  /** A record in front is delivered if and only if its checksum is right; with a wrong one the replay stops. */
  lemma ReplayChecked(crc: Checksum, accept: bytes -> bool, data: bytes, sum: Word, tail: bytes)
    requires |data| < 0x1_0000_0000
    ensures Replay(crc, accept, BigEndian(|data|, 4) + data + BigEndian(sum, 4) + tail, 0) ==
            if sum != crc(data) then Replayed([], UnexpectedEof)
            else if accept(data) then Prepend([data], Replay(crc, accept, tail, 0))
            else Replayed([data], Refused)
  {
    if sum == crc(data) {
      assert Frame(crc, data) == BigEndian(|data|, 4) + data + BigEndian(sum, 4);
      ReplayFrame(crc, accept, data, tail);
    } else {
      WordRoundTrip(|data|);
      WordRoundTrip(sum);
      ReadCorrupt(crc, accept, BigEndian(|data|, 4), data, BigEndian(sum, 4), tail);
    }
  }

  lemma ReadCorrupt(crc: Checksum, accept: bytes -> bool, head: bytes, data: bytes, sum: bytes, tail: bytes)
    requires |head| == 4 && |sum| == 4 && Number(head) == |data| && Number(sum) != crc(data)
    ensures ReadRecord(crc, head + data + sum + tail, 0) == Failed(UnexpectedEof)
    ensures Replay(crc, accept, head + data + sum + tail, 0) == Replayed([], UnexpectedEof)
  {
    Slices(head, data, sum, tail);
  }

  /** A corrupt record anywhere: exactly the records before it are delivered, whatever follows. */
  lemma {:induction false} ReplayCorrupt(crc: Checksum, accept: bytes -> bool, rs: seq<bytes>, data: bytes, sum: Word,
                                         tail: bytes)
    requires AllShort(rs) && (forall r :: r in rs ==> accept(r)) && |data| < 0x1_0000_0000 && sum != crc(data)
    ensures var bad := BigEndian(|data|, 4) + data + BigEndian(sum, 4) + tail;
            Replay(crc, accept, Log(crc, rs) + bad, 0) == Replayed(rs, UnexpectedEof)
  {
    var bad := BigEndian(|data|, 4) + data + BigEndian(sum, 4) + tail;
    if |rs| == 0 {
      assert Log(crc, rs) + bad == bad;
      ReplayChecked(crc, accept, data, sum, tail);
    } else {
      assert rs[0] in rs;
      ReplayCorrupt(crc, accept, rs[1..], data, sum, tail);
      ConcatAssociates(Frame(crc, rs[0]), Log(crc, rs[1..]), bad);
      ReplayFrame(crc, accept, rs[0], Log(crc, rs[1..]) + bad);
      assert rs == [rs[0]] + rs[1..];
    }
  }

  lemma ConcatAssociates(a: bytes, b: bytes, c: bytes)
    ensures a + b + c == a + (b + c)
  {
  }

  /** What is read back first has the length modulo 2^32. */
  lemma ReplayLong(crc: Checksum, accept: bytes -> bool, data: bytes, tail: bytes)
    ensures var r := Replay(crc, accept, Frame(crc, data) + tail, 0).records; r == [] || |r[0]| == Length(data)
  {
    WordRoundTrip(Length(data));
    var f := Frame(crc, data) + tail;
    assert f[0..4] == BigEndian(Length(data), 4);
  }

  /** Appending a record to a log makes the log of one more record. */
  lemma {:induction false} AppendedLog(crc: Checksum, rs: seq<bytes>, data: bytes)
    ensures Log(crc, rs + [data]) == Log(crc, rs) + Frame(crc, data)
  {
    if |rs| > 0 {
      AppendedLog(crc, rs[1..], data);
      assert (rs + [data])[1..] == rs[1..] + [data];
    }
  }

  /** A handler that refuses a record ends the replay right after it. */
  lemma {:induction false} ReplayRefused(crc: Checksum, accept: bytes -> bool, rs: seq<bytes>, i: nat)
    requires AllShort(rs) && i < |rs| && !accept(rs[i]) && (forall j :: 0 <= j < i ==> accept(rs[j]))
    ensures Replay(crc, accept, Log(crc, rs), 0) == Replayed(rs[..i + 1], Refused)
  {
    assert rs[0] in rs;
    ReplayFrame(crc, accept, rs[0], Log(crc, rs[1..]));
    TakeNext(rs, i);
    if i > 0 {
      ReplayRefused(crc, accept, rs[1..], i - 1);
    }
  }

  lemma TakeNext(rs: seq<bytes>, i: nat)
    requires i < |rs|
    ensures rs[..i + 1] == [rs[0]] + rs[1..][..i]
  {
  }
}
