/**
 The replication log's record format: little-endian fields, a checksum over the body, and a
 decoder that tells a short read from damage.
 */
module Records {
  import opened Crc

  const MAGIC: octet := 0xA5

  const END_OF_LOG: octet := 0x00

  const HEADER_LEN: nat := 9

  const BODY_FIXED_LEN: nat := 10

  const MAX_BODY_LEN: nat := 0x400_0000

  datatype Record = Record(shard: nat, seqno: nat, payload: seq<octet>)

  /** The fields fit the widths the format gives them. */
  predicate Writable(rec: Record)
  {
    rec.shard < 0x1_0000 && rec.seqno < 0x1_0000_0000_0000_0000 && BODY_FIXED_LEN + |rec.payload| < 0x1_0000_0000
  }

  datatype Decoded =
    | Intact(rec: Record, consumed: nat)
    | EndOfLog
    | NeedMore
    | Corrupt(skip: nat)

  // ---------- Little-endian integers ----------

  function Le(n: nat, width: nat): (r: seq<octet>)
    ensures |r| == width
    decreases width
  {
    if width == 0 then [] else [OctetAt(n % 256)] + Le(n / 256, width - 1)
  }

  function FromLe(bytes: seq<octet>): nat
    decreases |bytes|
  {
    if bytes == [] then 0 else Index(bytes[0]) + 256 * FromLe(bytes[1..])
  }

  function Pow256(k: nat): nat
  {
    if k == 0 then 1 else 256 * Pow256(k - 1)
  }

  lemma {:induction false} LeRoundTrip(n: nat, width: nat)
    requires n < Pow256(width)
    ensures FromLe(Le(n, width)) == n
    decreases width
  {
    hide Index;
    if width > 0 {
      LeRoundTrip(n / 256, width - 1);
      assert Le(n, width)[1..] == Le(n / 256, width - 1);
    }
  }

  lemma {:induction false} FromLeInjective(a: seq<octet>, b: seq<octet>)
    requires |a| == |b| && FromLe(a) == FromLe(b)
    ensures a == b
    decreases |a|
  {
    hide Index;
    if a != [] {
      assert a == [a[0]] + a[1..] && b == [b[0]] + b[1..];
      FromLeInjective(a[1..], b[1..]);
      IndexUnique(a[0], b[0]);
    }
  }

  lemma Widths()
    ensures Pow256(2) == 0x1_0000 && Pow256(4) == 0x1_0000_0000 && Pow256(8) == 0x1_0000_0000_0000_0000
  {
    assert Pow256(1) == 256;
    assert Pow256(3) == 256 * Pow256(2);
    assert Pow256(5) == 256 * Pow256(4);
    assert Pow256(6) == 256 * Pow256(5);
    assert Pow256(7) == 256 * Pow256(6);
  }

  /** A checksum as the number its field carries. */
  function CrcValue(data: seq<octet>): (n: nat)
    ensures n < 0x1_0000_0000
  {
    Checksum(data) as int
  }

  lemma CrcValueInjective(a: seq<octet>, b: seq<octet>)
    requires CrcValue(a) == CrcValue(b)
    ensures Checksum(a) == Checksum(b)
  {
    hide Checksum;
    NumberRoundTrip(Checksum(a));
    NumberRoundTrip(Checksum(b));
  }

  lemma NumberRoundTrip(x: bv32)
    ensures (x as int) as bv32 == x
  {
  }

  // ---------- The format ----------

  function Body(rec: Record): (b: seq<octet>)
    ensures |b| == BODY_FIXED_LEN + |rec.payload|
  {
    Le(rec.shard, 2) + Le(rec.seqno, 8) + rec.payload
  }

  function Encode(rec: Record): (b: seq<octet>)
    ensures |b| == HEADER_LEN + BODY_FIXED_LEN + |rec.payload|
  {
    [MAGIC] + Le(|Body(rec)|, 4) + Le(CrcValue(Body(rec)), 4) + Body(rec)
  }

  function Decode(buf: seq<octet>): Decoded
  {
    if |buf| == 0 then NeedMore
    else if buf[0] == END_OF_LOG then EndOfLog
    else if buf[0] != MAGIC then Corrupt(1)
    else if |buf| < HEADER_LEN then NeedMore
    else
      var bodyLen := FromLe(buf[1..5]);
      if bodyLen < BODY_FIXED_LEN || bodyLen > MAX_BODY_LEN then Corrupt(1)
      else if |buf| < HEADER_LEN + bodyLen then NeedMore
      else
        var body := buf[HEADER_LEN..HEADER_LEN + bodyLen];
        if CrcValue(body) != FromLe(buf[5..9]) then Corrupt(1)
        else
          Intact(Record(FromLe(body[0..2]), FromLe(body[2..10]), body[BODY_FIXED_LEN..]), HEADER_LEN + bodyLen)
  }

  // ---------- Round trips ----------

  /** How an encoding that some bytes follow is laid out. */
  lemma Layout(rec: Record, rest: seq<octet>)
    ensures var buf := Encode(rec) + rest;
            && buf[0] == MAGIC
            && buf[1..5] == Le(|Body(rec)|, 4)
            && buf[5..9] == Le(CrcValue(Body(rec)), 4)
            && buf[HEADER_LEN..HEADER_LEN + |Body(rec)|] == Body(rec)
  {
    hide Le, CrcValue, Body;
  }

  lemma BodyLayout(rec: Record)
    ensures Body(rec)[0..2] == Le(rec.shard, 2)
    ensures Body(rec)[2..10] == Le(rec.seqno, 8)
    ensures Body(rec)[10..] == rec.payload
  {
    hide Le;
  }

  lemma FieldsRoundTrip(rec: Record)
    requires Writable(rec)
    ensures FromLe(Le(|Body(rec)|, 4)) == |Body(rec)|
    ensures FromLe(Le(CrcValue(Body(rec)), 4)) == CrcValue(Body(rec))
    ensures FromLe(Le(rec.shard, 2)) == rec.shard
    ensures FromLe(Le(rec.seqno, 8)) == rec.seqno
  {
    hide Le, FromLe, CrcValue, Body, Pow256;
    Widths();
    LeRoundTrip(|Body(rec)|, 4);
    LeRoundTrip(CrcValue(Body(rec)), 4);
    LeRoundTrip(rec.shard, 2);
    LeRoundTrip(rec.seqno, 8);
  }

  /** A written record, whatever follows it, decodes to itself and its exact length exactly when
      its body is within the ceiling; above it the record is damage. */
  lemma RecordRoundTrip(rec: Record, rest: seq<octet>)
    requires Writable(rec)
    ensures Decode(Encode(rec) + rest)
         == if |Body(rec)| <= MAX_BODY_LEN then Intact(rec, |Encode(rec)|) else Corrupt(1)
  {
    hide Le, FromLe, CrcValue, Body, Encode;
    Layout(rec, rest);
    FieldsRoundTrip(rec);
    BodyLayout(rec);
  }

  /** Every proper prefix of a readable record is a short read. */
  lemma ProperPrefixNeedsMore(rec: Record, n: nat)
    requires Writable(rec) && |Body(rec)| <= MAX_BODY_LEN && n < |Encode(rec)|
    ensures Decode(Encode(rec)[..n]) == NeedMore
  {
    hide Le, FromLe, CrcValue, Body, Encode;
    var buf, whole := Encode(rec)[..n], Encode(rec) + [];
    Layout(rec, []);
    FieldsRoundTrip(rec);
    assert whole == Encode(rec);
    if n >= HEADER_LEN {
      assert buf[1..5] == whole[1..5];
    }
  }

  /** Every record of a log read by advancing past whole records, until the first read that is
      not one. */
  function ReadAll(buf: seq<octet>): seq<Record>
    decreases |buf|
  {
    match Decode(buf)
    case Intact(rec, consumed) => [rec] + ReadAll(buf[consumed..])
    case _ => []
  }

  function EncodeAll(recs: seq<Record>): seq<octet>
    decreases |recs|
  {
    if recs == [] then [] else Encode(recs[0]) + EncodeAll(recs[1..])
  }

  predicate Readable(recs: seq<Record>)
  {
    forall i :: 0 <= i < |recs| ==> Writable(recs[i]) && |Body(recs[i])| <= MAX_BODY_LEN
  }

  /** A log of records, whatever follows it, reads back as those records in order and then
      whatever follows. */
  lemma {:induction false} LogRoundTrip(recs: seq<Record>, rest: seq<octet>)
    requires Readable(recs)
    ensures ReadAll(EncodeAll(recs) + rest) == recs + ReadAll(rest)
    decreases |recs|
  {
    hide Encode, Body, Decode, ReadAll;
    if recs == [] {
      assert EncodeAll(recs) + rest == rest;
    } else {
      var later := EncodeAll(recs[1..]) + rest;
      assert EncodeAll(recs) + rest == Encode(recs[0]) + later;
      ReadOne(recs[0], later);
      LogRoundTrip(recs[1..], rest);
      assert [recs[0]] + (recs[1..] + ReadAll(rest)) == recs + ReadAll(rest);
    }
  }

  lemma ReadOne(rec: Record, later: seq<octet>)
    requires Writable(rec) && |Body(rec)| <= MAX_BODY_LEN
    ensures ReadAll(Encode(rec) + later) == [rec] + ReadAll(later)
  {
    hide Encode, Body, Decode;
    RecordRoundTrip(rec, later);
    assert (Encode(rec) + later)[|Encode(rec)|..] == later;
  }

  // ---------- Where a log ends ----------

  /** The answer that ends the reading of a log. */
  function LogEnd(buf: seq<octet>): Decoded
    decreases |buf|
  {
    match Decode(buf)
    case Intact(_, consumed) => LogEnd(buf[consumed..])
    case other => other
  }

  lemma {:induction false} LogEndsAsItsRest(recs: seq<Record>, rest: seq<octet>)
    requires Readable(recs)
    ensures LogEnd(EncodeAll(recs) + rest) == LogEnd(rest)
    decreases |recs|
  {
    hide Encode, Body, Decode;
    if recs == [] {
      assert EncodeAll(recs) + rest == rest;
    } else {
      var later := EncodeAll(recs[1..]) + rest;
      assert EncodeAll(recs) + rest == Encode(recs[0]) + later;
      RecordRoundTrip(recs[0], later);
      assert (Encode(recs[0]) + later)[|Encode(recs[0])|..] == later;
      LogEndsAsItsRest(recs[1..], rest);
    }
  }

  /** A log with nothing behind it may go on; a zero byte ends it; and any other byte that is not the
      mark of a record is damage of one byte. */
  lemma LogStops(recs: seq<Record>, b: octet, x: seq<octet>)
    requires Readable(recs)
    ensures LogEnd(EncodeAll(recs)) == NeedMore
    ensures b == 0x00 ==> LogEnd(EncodeAll(recs) + ([b] + x)) == EndOfLog
    ensures b != 0x00 && b != 0xA5 ==> LogEnd(EncodeAll(recs) + ([b] + x)) == Corrupt(1)
  {
    hide EncodeAll;
    LogEndsAsItsRest(recs, []);
    assert EncodeAll(recs) + [] == EncodeAll(recs);
    LogEndsAsItsRest(recs, [b] + x);
  }

  // ---------- The bytes of a record ----------

  /** The `i`-th byte of a number, the least first. */
  function ByteOf(n: nat, i: nat): nat
  {
    if i == 0 then n % 256 else ByteOf(n / 256, i - 1)
  }

  lemma {:induction false} LeByte(n: nat, width: nat, i: nat)
    requires i < width
    ensures Le(n, width)[i] as int == ByteOf(n, i)
    decreases width
  {
    OctetIs(n % 256);
    if i > 0 {
      LeByte(n / 256, width - 1, i - 1);
    }
  }

  lemma OctetIs(n: nat)
    requires n < 256
    ensures OctetAt(n) as int == n
  {
  }

  /** A record byte by byte: its mark, the length of its body, the checksum of its body, its shard,
      its sequence number, each number least byte first, and its payload. */
  lemma RecordBytes(rec: Record, i: nat)
    ensures var b := Encode(rec);
            && b[0] == 0xA5
            && (i < 4 ==> b[1 + i] as int == ByteOf(10 + |rec.payload|, i))
            && (i < 4 ==> b[5 + i] as int == ByteOf(Checksum(b[9..]) as int, i))
            && (i < 2 ==> b[9 + i] as int == ByteOf(rec.shard, i))
            && (i < 8 ==> b[11 + i] as int == ByteOf(rec.seqno, i))
            && b[19..] == rec.payload
  {
    hide Le, Checksum, ByteOf;
    var b := Encode(rec);
    assert b[9..] == Body(rec);
    if i < 4 {
      LeByte(|Body(rec)|, 4, i);
      LeByte(CrcValue(Body(rec)), 4, i);
    }
    if i < 2 {
      LeByte(rec.shard, 2, i);
    }
    if i < 8 {
      LeByte(rec.seqno, 8, i);
    }
  }

  /** The length a record declares decides before anything of its body: under 10 or over 64 MiB is
      damage, and otherwise that many bytes are waited for. */
  lemma DeclaredLengthDecides(buf: seq<octet>)
    requires |buf| >= 9 && buf[0] == 0xA5
    ensures var declared := buf[1] as int + 256 * (buf[2] as int) + 65_536 * (buf[3] as int)
                            + 16_777_216 * (buf[4] as int);
            && (declared < 10 || declared > 67_108_864 ==> Decode(buf) == Corrupt(1))
            && (10 <= declared <= 67_108_864 && |buf| < 9 + declared ==> Decode(buf) == NeedMore)
  {
    hide FromLe, CrcValue;
    FourBytesAre(buf[1..5]);
  }

  lemma FourBytesAre(b: seq<octet>)
    requires |b| == 4
    ensures FromLe(b) == b[0] as int + 256 * (b[1] as int) + 65_536 * (b[2] as int) + 16_777_216 * (b[3] as int)
  {
    assert b[1..][1..] == b[2..] && b[2..][1..] == b[3..] && b[3..][1..] == [];
    assert FromLe(b[3..]) == Index(b[3]);
    assert FromLe(b[2..]) == Index(b[2]) + 256 * FromLe(b[3..]);
    assert FromLe(b[1..]) == Index(b[1]) + 256 * FromLe(b[2..]);
  }

  // ---------- Damage ----------

  /** Altering any one byte of a record's body makes the record damage. */
  lemma AlteredBodyIsDamage(rec: Record, rest: seq<octet>, i: nat, b: octet)
    requires Writable(rec) && HEADER_LEN <= i < |Encode(rec)| && b != Encode(rec)[i]
    ensures Decode(Encode(rec)[i := b] + rest) == Corrupt(1)
  {
    hide Le, FromLe, CrcValue, Body, Encode;
    var buf := Encode(rec)[i := b] + rest;
    var body := Body(rec);
    Layout(rec, rest);
    FieldsRoundTrip(rec);
    assert buf[1..5] == (Encode(rec) + rest)[1..5] && buf[5..9] == (Encode(rec) + rest)[5..9];
    var j := i - HEADER_LEN;
    assert buf[HEADER_LEN..HEADER_LEN + |body|] == body[j := b];
    assert body[j] == Encode(rec)[i] by {
      assert (Encode(rec) + rest)[HEADER_LEN..HEADER_LEN + |body|][j] == (Encode(rec) + rest)[i];
    }
    AlteredByteAltersChecksum(body, j, b);
    if CrcValue(body[j := b]) == CrcValue(body) {
      CrcValueInjective(body[j := b], body);
    }
  }

  /** Altering any one byte of its checksum does too. */
  lemma AlteredChecksumIsDamage(rec: Record, rest: seq<octet>, i: nat, b: octet)
    requires Writable(rec) && 5 <= i < HEADER_LEN && b != Encode(rec)[i]
    ensures Decode(Encode(rec)[i := b] + rest) == Corrupt(1)
  {
    hide Le, FromLe, CrcValue, Body, Encode;
    var whole := Encode(rec) + rest;
    var buf := Encode(rec)[i := b] + rest;
    var body := Body(rec);
    Layout(rec, rest);
    FieldsRoundTrip(rec);
    assert buf[1..5] == whole[1..5];
    assert buf[HEADER_LEN..HEADER_LEN + |body|] == whole[HEADER_LEN..HEADER_LEN + |body|];
    assert buf[5..9][i - 5] == b && whole[5..9][i - 5] == Encode(rec)[i];
    if FromLe(buf[5..9]) == FromLe(whole[5..9]) {
      FromLeInjective(buf[5..9], whole[5..9]);
    }
  }

  lemma {:induction false} LogSplits(recs: seq<Record>, k: nat)
    requires k < |recs|
    ensures EncodeAll(recs) == EncodeAll(recs[..k]) + (Encode(recs[k]) + EncodeAll(recs[k + 1..]))
    decreases k
  {
    hide Encode;
    if k == 0 {
      assert recs[..0] == [];
    } else {
      assert recs[..k][1..] == recs[1..][..k - 1] && recs[1..][k..] == recs[k + 1..];
      LogSplits(recs[1..], k - 1);
    }
  }

  /** Altering any one body or checksum byte of the `k`-th record of a log leaves exactly the
      records before it readable. */
  lemma AlteredLogReadsUpTo(recs: seq<Record>, rest: seq<octet>, k: nat, i: nat, b: octet)
    requires Readable(recs) && k < |recs| && 5 <= i < |Encode(recs[k])| && b != Encode(recs[k])[i]
    ensures |EncodeAll(recs[..k])| + i < |EncodeAll(recs)|
    ensures ReadAll(EncodeAll(recs)[|EncodeAll(recs[..k])| + i := b] + rest) == recs[..k]
  {
    hide Encode, Decode, EncodeAll, Body;
    var before, rec, after := EncodeAll(recs[..k]), Encode(recs[k]), EncodeAll(recs[k + 1..]);
    LogSplits(recs, k);
    assert EncodeAll(recs)[|before| + i := b] + rest == before + (rec[i := b] + (after + rest));
    if i >= HEADER_LEN {
      AlteredBodyIsDamage(recs[k], after + rest, i, b);
    } else {
      AlteredChecksumIsDamage(recs[k], after + rest, i, b);
    }
    LogRoundTrip(recs[..k], rec[i := b] + (after + rest));
    assert recs[..k] + [] == recs[..k];
  }

  // ---------- The two functions, as they run ----------

  /** Appends a record, reserving the checksum's place and patching it once the body is in. */
  method EncodeRecord(t: array2<bv32>, rec: Record, out0: seq<octet>) returns (out: seq<octet>)
    requires AreRows(t) && Writable(rec)
    ensures out == out0 + Encode(rec)
  {
    hide Le, Checksum;
    var bodyLen := BODY_FIXED_LEN + |rec.payload|;
    out := out0 + [MAGIC] + Le(bodyLen, 4);
    var crcAt := |out|;
    out := out + [0, 0, 0, 0];
    var bodyAt := |out|;
    out := out + Le(rec.shard, 2);
    out := out + Le(rec.seqno, 8);
    out := out + rec.payload;
    assert out[bodyAt..] == Body(rec);
    var crc := Crc32(t, out[bodyAt..]);
    out := out[..crcAt] + Le(crc as int, 4) + out[bodyAt..];
    assert out[..crcAt] == out0 + [MAGIC] + Le(bodyLen, 4);
    assert out == out0 + ([MAGIC] + Le(bodyLen, 4) + Le(crc as int, 4) + Body(rec));
  }

  method DecodeRecord(t: array2<bv32>, buf: seq<octet>) returns (d: Decoded)
    requires AreRows(t)
    ensures d == Decode(buf)
  {
    hide FromLe, Checksum;
    if |buf| == 0 {
      return NeedMore;
    }
    if buf[0] == END_OF_LOG {
      return EndOfLog;
    }
    if buf[0] != MAGIC {
      return Corrupt(1);
    }
    if |buf| < HEADER_LEN {
      return NeedMore;
    }
    var bodyLen := FromLe([buf[1], buf[2], buf[3], buf[4]]);
    assert [buf[1], buf[2], buf[3], buf[4]] == buf[1..5];
    if !(BODY_FIXED_LEN <= bodyLen <= MAX_BODY_LEN) {
      return Corrupt(1);
    }
    var consumed := HEADER_LEN + bodyLen;
    if |buf| < consumed {
      return NeedMore;
    }
    var body := buf[HEADER_LEN..consumed];
    var expected := FromLe([buf[5], buf[6], buf[7], buf[8]]);
    assert [buf[5], buf[6], buf[7], buf[8]] == buf[5..9];
    var crc := Crc32(t, body);
    if crc as int != expected {
      return Corrupt(1);
    }
    return Intact(Record(FromLe(body[0..2]), FromLe(body[2..10]), body[BODY_FIXED_LEN..]), consumed);
  }
}
