/**
 CRC-32/ISO-HDLC: the sixteen-row table walk, proved equal to the bit-at-a-time loop on every
 input, because the step is linear over exclusive or. It is also injective in its state, so no
 single altered byte goes unnoticed.
 */
module Crc {

  type octet = bv8

  const POLYNOMIAL: bv32 := 0xEDB8_8320

  const INITIAL: bv32 := 0xFFFF_FFFF

  // ---------- The bit operations, by name ----------

  function Word(b: octet): bv32
  {
    b as bv32
  }

  function Xor(x: bv32, y: bv32): bv32
  {
    x ^ y
  }

  predicate Odd(x: bv32)
  {
    x & 1 != 0
  }

  function Half(x: bv32): bv32
  {
    x >> 1
  }

  function LowByte(x: bv32): bv32
  {
    x & 0xFF
  }

  function HighBytes(x: bv32): bv32
  {
    x >> 8
  }

  lemma XorZero(x: bv32)
    ensures Xor(x, 0) == x && Xor(0, x) == x
  {
  }

  lemma XorSame(x: bv32)
    ensures Xor(x, x) == 0
  {
  }

  lemma XorComm(x: bv32, y: bv32)
    ensures Xor(x, y) == Xor(y, x)
  {
  }

  lemma XorAssoc(x: bv32, y: bv32, z: bv32)
    ensures Xor(Xor(x, y), z) == Xor(x, Xor(y, z))
  {
    assert (x ^ y) ^ z == x ^ (y ^ z);
  }

  lemma XorShuffle(a: bv32, b: bv32, c: bv32, d: bv32)
    ensures Xor(Xor(a, b), Xor(c, d)) == Xor(Xor(a, c), Xor(b, d))
  {
    hide Xor;
    XorAssoc(a, b, Xor(c, d));
    XorAssoc(b, c, d);
    XorComm(b, c);
    XorAssoc(c, b, d);
    XorAssoc(a, c, Xor(b, d));
  }

  lemma OddXor(x: bv32, y: bv32)
    ensures Odd(Xor(x, y)) <==> Odd(x) != Odd(y)
  {
    assert (x ^ y) & 1 == (x & 1) ^ (y & 1);
  }

  lemma HalfXor(x: bv32, y: bv32)
    ensures Half(Xor(x, y)) == Xor(Half(x), Half(y))
  {
  }

  // ---------- The reference ----------

  function Bit(c: bv32): bv32
  {
    if Odd(c) then Xor(Half(c), POLYNOMIAL) else Half(c)
  }

  function Bits(c: bv32, n: nat): bv32
  {
    if n == 0 then c else Bit(Bits(c, n - 1))
  }

  /** The state after one byte's worth of shifts. */
  function Shift(c: bv32): bv32
  {
    Bits(c, 8)
  }

  /** The bit-at-a-time loop from state `c`. */
  function Bitwise(c: bv32, data: seq<octet>): bv32
    decreases |data|
  {
    if data == [] then c else Bitwise(Shift(Xor(c, Word(data[0]))), data[1..])
  }

  function Checksum(data: seq<octet>): bv32
  {
    !Bitwise(INITIAL, data)
  }

  /** The state advanced by `n` zero bytes. */
  function Advance(c: bv32, n: nat): bv32
  {
    if n == 0 then c else Shift(Advance(c, n - 1))
  }

  // ---------- Linearity ----------

  lemma BitLinear(x: bv32, y: bv32)
    ensures Bit(Xor(x, y)) == Xor(Bit(x), Bit(y))
  {
    hide Xor, Odd, Half;
    var a, b := Half(x), Half(y);
    OddXor(x, y);
    HalfXor(x, y);
    if Odd(x) && Odd(y) {
      XorShuffle(a, POLYNOMIAL, b, POLYNOMIAL);
      XorSame(POLYNOMIAL);
      XorZero(Xor(a, b));
    } else if Odd(x) {
      XorAssoc(a, POLYNOMIAL, b);
      XorComm(POLYNOMIAL, b);
      XorAssoc(a, b, POLYNOMIAL);
    } else if Odd(y) {
      XorAssoc(a, b, POLYNOMIAL);
    }
  }

  lemma {:induction false} BitsLinear(x: bv32, y: bv32, n: nat)
    ensures Bits(Xor(x, y), n) == Xor(Bits(x, n), Bits(y, n))
  {
    hide Xor, Bit;
    if n > 0 {
      BitsLinear(x, y, n - 1);
      BitLinear(Bits(x, n - 1), Bits(y, n - 1));
    }
  }

  lemma ShiftLinear(x: bv32, y: bv32)
    ensures Shift(Xor(x, y)) == Xor(Shift(x), Shift(y))
  {
    hide Xor, Bits;
    BitsLinear(x, y, 8);
  }

  lemma {:induction false} AdvanceLinear(x: bv32, y: bv32, n: nat)
    ensures Advance(Xor(x, y), n) == Xor(Advance(x, n), Advance(y, n))
  {
    hide Xor, Shift;
    if n > 0 {
      AdvanceLinear(x, y, n - 1);
      ShiftLinear(Advance(x, n - 1), Advance(y, n - 1));
    }
  }

  lemma {:induction false} AdvanceAfterShift(x: bv32, n: nat)
    ensures Advance(Shift(x), n) == Advance(x, n + 1)
  {
    hide Shift;
    if n > 0 {
      AdvanceAfterShift(x, n - 1);
    }
  }

  lemma {:induction false} AdvanceZero(n: nat)
    ensures Advance(0, n) == 0
  {
    hide Shift;
    if n > 0 {
      AdvanceZero(n - 1);
      ShiftHigh(0);
    }
  }

  /** A state whose low byte is clear is only shifted. */
  lemma ShiftHigh(x: bv32)
    requires LowByte(x) == 0
    ensures Shift(x) == HighBytes(x)
  {
    assert Bits(x, 1) == x >> 1;
    assert Bits(x, 2) == x >> 2;
    assert Bits(x, 3) == x >> 3;
    assert Bits(x, 4) == x >> 4;
    assert Bits(x, 5) == x >> 5;
    assert Bits(x, 6) == x >> 6;
    assert Bits(x, 7) == x >> 7;
  }

  lemma SplitByte(x: bv32)
    ensures var high := x & 0xFFFF_FF00;
            Xor(LowByte(x), high) == x && LowByte(high) == 0 && HighBytes(high) == HighBytes(x)
  {
  }

  /** What the low byte contributes, and the rest moved down: one table look-up's worth. */
  lemma ShiftSplit(x: bv32)
    ensures Shift(x) == Xor(Shift(LowByte(x)), HighBytes(x))
  {
    hide Shift, Xor, LowByte, HighBytes;
    SplitByte(x);
    ShiftLinear(LowByte(x), x & 0xFFFF_FF00);
    ShiftHigh(x & 0xFFFF_FF00);
  }

  lemma AdvanceSplit(x: bv32, n: nat)
    ensures Advance(x, n + 1) == Xor(Advance(LowByte(x), n + 1), Advance(HighBytes(x), n))
  {
    hide Shift, Xor, LowByte, HighBytes, Advance;
    AdvanceAfterShift(x, n);
    AdvanceAfterShift(LowByte(x), n);
    ShiftSplit(x);
    AdvanceLinear(Shift(LowByte(x)), HighBytes(x), n);
  }

  // ---------- Blocks ----------

  lemma {:induction false} BitwiseJoin(c: bv32, a: seq<octet>, b: seq<octet>)
    ensures Bitwise(c, a + b) == Bitwise(Bitwise(c, a), b)
    decreases |a|
  {
    hide Shift, Xor, Word;
    if a == [] {
      assert a + b == b;
    } else {
      assert (a + b)[1..] == a[1..] + b;
      BitwiseJoin(Shift(Xor(c, Word(a[0]))), a[1..], b);
    }
  }

  /** Each byte through the row that advances it past the bytes after it. */
  function FoldRows(bytes: seq<bv32>): bv32
    decreases |bytes|
  {
    if bytes == [] then 0 else Xor(Advance(bytes[0], |bytes|), FoldRows(bytes[1..]))
  }

  function Widen(data: seq<octet>): (r: seq<bv32>)
    ensures |r| == |data|
  {
    seq(|data|, i requires 0 <= i < |data| => Word(data[i]))
  }

  /** The loop over a block is its bytes' rows, with the state advanced past them. */
  lemma {:induction false} BitwiseIsRows(c: bv32, data: seq<octet>)
    ensures Bitwise(c, data) == Xor(Advance(c, |data|), FoldRows(Widen(data)))
    decreases |data|
  {
    hide Shift, Xor, Word;
    if data == [] {
      XorZero(c);
    } else {
      var d := Word(data[0]);
      var n := |data| - 1;
      assert Widen(data)[1..] == Widen(data[1..]);
      BitwiseIsRows(Shift(Xor(c, d)), data[1..]);
      AdvanceAfterShift(Xor(c, d), n);
      AdvanceLinear(c, d, n + 1);
      XorAssoc(Advance(c, n + 1), Advance(d, n + 1), FoldRows(Widen(data[1..])));
    }
  }

  /** The state's byte `k`, as it is folded into the block. */
  function StateByte(c: bv32, k: nat): bv32
  {
    if k == 0 then LowByte(c)
    else if k == 1 then LowByte(HighBytes(c))
    else if k == 2 then LowByte(HighBytes(HighBytes(c)))
    else if k == 3 then LowByte(HighBytes(HighBytes(HighBytes(c))))
    else 0
  }

  function FoldedByte(c: bv32, b: octet, k: nat): bv32
  {
    Xor(Word(b), StateByte(c, k))
  }

  /** The block with the state folded into its first four bytes. */
  function Folded(c: bv32, data: seq<octet>): (r: seq<bv32>)
    ensures |r| == |data|
  {
    seq(|data|, k requires 0 <= k < |data| => FoldedByte(c, data[k], k))
  }

  /** The rows of the state's four bytes, in their places of a sixteen-byte block. */
  function FourRows(c: bv32): bv32
  {
    Xor(Advance(StateByte(c, 0), 16),
        Xor(Advance(StateByte(c, 1), 15),
            Xor(Advance(StateByte(c, 2), 14),
                Xor(Advance(StateByte(c, 3), 13), 0))))
  }

  /** A state advanced past sixteen bytes is its four bytes through the rows of their places. */
  lemma AdvanceIsFourRows(c: bv32)
    ensures Advance(c, 16) == FourRows(c)
  {
    hide Advance, Shift, Xor, LowByte, HighBytes;
    var c1, c2, c3 := HighBytes(c), HighBytes(HighBytes(c)), HighBytes(HighBytes(HighBytes(c)));
    AdvanceSplit(c, 15);
    AdvanceSplit(c1, 14);
    AdvanceSplit(c2, 13);
    AdvanceSplit(c3, 12);
    AdvanceZero(12);
    FourBytes(c);
  }

  lemma FourBytes(c: bv32)
    ensures HighBytes(HighBytes(HighBytes(HighBytes(c)))) == 0
  {
  }

  /** Folding something into the first byte of a run moves its sum of rows by that row. */
  lemma FoldHead(x: bv32, y: bv32, rest: seq<bv32>, rest': seq<bv32>, z: bv32)
    requires |rest| == |rest'| && FoldRows(rest') == Xor(FoldRows(rest), z)
    ensures FoldRows([Xor(x, y)] + rest') == Xor(FoldRows([x] + rest), Xor(Advance(y, |rest| + 1), z))
  {
    hide Advance, Xor;
    var n := |rest| + 1;
    AdvanceLinear(x, y, n);
    assert ([Xor(x, y)] + rest')[1..] == rest' && ([x] + rest)[1..] == rest;
    XorShuffle(Advance(x, n), Advance(y, n), FoldRows(rest), z);
  }

  /** Folding the state in moves the block's sum of rows by the state's own. */
  lemma FoldedRows(c: bv32, w: seq<bv32>, f: seq<bv32>)
    requires |w| == |f| == 16
    requires forall k :: 0 <= k < 4 ==> f[k] == Xor(w[k], StateByte(c, k))
    requires FoldRows(f[4..]) == Xor(FoldRows(w[4..]), 0)
    ensures FoldRows(f) == Xor(FoldRows(w), FourRows(c))
  {
    hide Advance, Xor, FoldRows, StateByte;
    var z3 := Xor(Advance(StateByte(c, 3), 13), 0);
    var z2 := Xor(Advance(StateByte(c, 2), 14), z3);
    var z1 := Xor(Advance(StateByte(c, 1), 15), z2);
    FoldAt(c, w, f, 3, 0);
    FoldAt(c, w, f, 2, z3);
    FoldAt(c, w, f, 1, z2);
    FoldAt(c, w, f, 0, z1);
    assert w[0..] == w && f[0..] == f;
  }

  lemma FoldAt(c: bv32, w: seq<bv32>, f: seq<bv32>, k: nat, z: bv32)
    requires |w| == |f| == 16 && k < 4
    requires f[k] == Xor(w[k], StateByte(c, k)) && FoldRows(f[k + 1..]) == Xor(FoldRows(w[k + 1..]), z)
    ensures FoldRows(f[k..]) == Xor(FoldRows(w[k..]), Xor(Advance(StateByte(c, k), 16 - k), z))
  {
    hide Advance, Xor, FoldRows, StateByte;
    assert w[k..] == [w[k]] + w[k + 1..] && f[k..] == [f[k]] + f[k + 1..];
    FoldHead(w[k], StateByte(c, k), w[k + 1..], f[k + 1..], z);
  }

  /** One block through the rows is one block through the loop. */
  lemma BlockIsBitwise(c: bv32, block: seq<octet>)
    requires |block| == 16
    ensures FoldRows(Folded(c, block)) == Bitwise(c, block)
  {
    hide Advance, Xor, FoldRows, Bitwise, StateByte, Word, FourRows;
    var w, f := Widen(block), Folded(c, block);
    BitwiseIsRows(c, block);
    FoldTail(c, block);
    FoldedRows(c, w, f);
    AdvanceIsFourRows(c);
    XorComm(FoldRows(w), FourRows(c));
  }

  /** Past its fourth byte a block is folded with nothing. */
  lemma FoldTail(c: bv32, block: seq<octet>)
    requires |block| == 16
    ensures FoldRows(Folded(c, block)[4..]) == Xor(FoldRows(Widen(block)[4..]), 0)
  {
    hide Advance, Xor, FoldRows;
    var w, f := Widen(block), Folded(c, block);
    forall k | 4 <= k < 16 ensures f[k] == w[k] {
      XorZero(w[k]);
    }
    assert f[4..] == w[4..];
    XorZero(FoldRows(w[4..]));
  }

  // ---------- The table walk ----------

  function Index(b: octet): (i: nat)
    ensures i < 256
  {
    b as int
  }

  function LowOctet(x: bv32): octet
  {
    (x & 0xFF) as octet
  }

  lemma LowOctetWord(x: bv32)
    ensures Word(LowOctet(x)) == LowByte(x)
  {
  }

  lemma IndexUnique(a: octet, b: octet)
    requires Index(a) == Index(b)
    ensures a == b
  {
  }

  /** The first `rows` rows hold each byte advanced by one byte more than the row's number. */
  ghost predicate RowsTo(t: array2<bv32>, rows: nat)
    requires t.Length0 == 16 && t.Length1 == 256 && rows <= 16
    reads t
  {
    forall n, b: octet :: 0 <= n < rows ==> t[n, Index(b)] == Advance(Word(b), n + 1)
  }

  /** The sixteen rows. */
  ghost predicate AreRows(t: array2<bv32>)
    reads t
  {
    t.Length0 == 16 && t.Length1 == 256 && RowsTo(t, 16)
  }

  /** Builds the rows: the first bit by bit, each later one from the one before. */
  method CrcTables() returns (t: array2<bv32>)
    ensures fresh(t) && AreRows(t)
  {
    t := new bv32[16, 256];
    FirstRow(t);
    for n := 1 to 16
      invariant RowsTo(t, n)
    {
      NextRow(t, n);
    }
  }

  method FirstRow(t: array2<bv32>)
    requires t.Length0 == 16 && t.Length1 == 256
    modifies t
    ensures RowsTo(t, 1)
  {
    hide Shift, Word, Bits, Index;
    for i := 0 to 256
      invariant forall b: octet :: Index(b) < i ==> t[0, Index(b)] == Shift(Word(b))
    {
      var b := OctetAt(i);
      var crc := ByteThrough(b);
      t[0, i] := crc;
      forall b': octet | Index(b') < i + 1 ensures t[0, Index(b')] == Shift(Word(b')) {
        if Index(b') == i {
          IndexUnique(b, b');
        }
      }
    }
    forall b: octet ensures t[0, Index(b)] == Advance(Word(b), 1) {
      assert Advance(Word(b), 1) == Shift(Advance(Word(b), 0));
    }
  }

  method ByteThrough(b: octet) returns (crc: bv32)
    ensures crc == Shift(Word(b))
  {
    hide Odd, Xor, Half;
    crc := Word(b);
    for k := 0 to 8
      invariant crc == Bits(Word(b), k)
    {
      crc := if Odd(crc) then Xor(Half(crc), POLYNOMIAL) else Half(crc);
    }
  }

  /** Fills row `n` from the one before: one more byte through the first row. */
  method NextRow(t: array2<bv32>, n: nat)
    requires t.Length0 == 16 && t.Length1 == 256 && 1 <= n < 16 && RowsTo(t, n)
    modifies t
    ensures RowsTo(t, n + 1)
  {
    hide Advance, Shift, Word, Xor, LowByte, HighBytes, LowOctet, Bits, Index;
    for i := 0 to 256
      invariant RowsTo(t, n)
      invariant forall b: octet :: Index(b) < i ==> t[n, Index(b)] == Advance(Word(b), n + 1)
    {
      var prev := t[n - 1, i];
      ghost var b := OctetAt(i);
      var entry := Xor(t[0, Index(LowOctet(prev))], HighBytes(prev));
      assert entry == Advance(Word(b), n + 1) by {
        assert prev == t[n - 1, Index(b)];
        AdvanceOne(Word(LowOctet(prev)));
        LowOctetWord(prev);
        ShiftSplit(prev);
        AdvanceStep(Word(b), n);
      }
      t[n, i] := entry;
      forall b': octet | Index(b') < i + 1 ensures t[n, Index(b')] == Advance(Word(b'), n + 1) {
        if Index(b') == i {
          IndexUnique(b, b');
        }
      }
    }
  }

  /** The octet with a given value, built bit by bit. */
  function OctetAt(i: nat): (b: octet)
    requires i < 256
    ensures Index(b) == i
  {
    if i == 0 then 0
    else
      var half := OctetAt(i / 2);
      Doubled(half);
      if i % 2 == 0 then half << 1 else (half << 1) | 1
  }

  lemma Doubled(b: octet)
    requires Index(b) < 128
    ensures Index(b << 1) == 2 * Index(b)
    ensures Index((b << 1) | 1) == 2 * Index(b) + 1
  {
  }

  lemma AdvanceOne(x: bv32)
    ensures Advance(x, 1) == Shift(x)
  {
    AdvanceStep(x, 0);
  }

  lemma AdvanceStep(x: bv32, n: nat)
    ensures Advance(x, n + 1) == Shift(Advance(x, n))
  {
  }

  /** Sixteen bytes at a time through the rows, and the rest one at a time. */
  method Crc32(t: array2<bv32>, data: seq<octet>) returns (crc: bv32)
    requires AreRows(t)
    ensures crc == Checksum(data)
  {
    hide Advance, Bitwise, FoldRows, Shift, Xor, Word, RowsTo, Folded;
    crc := INITIAL;
    var i := 0;
    assert data[..0] == [];
    BitwiseEmpty(INITIAL);
    while i + 16 <= |data|
      invariant i <= |data|
      invariant crc == Bitwise(INITIAL, data[..i])
    {
      var block := data[i..i + 16];
      assert data[..i + 16] == data[..i] + block;
      BitwiseJoin(INITIAL, data[..i], block);
      crc := Block(t, crc, block);
      i := i + 16;
    }
    while i < |data|
      invariant i <= |data|
      invariant crc == Bitwise(INITIAL, data[..i])
    {
      assert data[..i + 1] == data[..i] + [data[i]];
      BitwiseJoin(INITIAL, data[..i], [data[i]]);
      BitwiseOne(crc, data[i]);
      crc := OneByte(t, crc, data[i]);
      i := i + 1;
    }
    assert data[..i] == data;
    crc := !crc;
  }

  lemma BitwiseEmpty(c: bv32)
    ensures Bitwise(c, []) == c
  {
  }

  lemma BitwiseOne(c: bv32, b: octet)
    ensures Bitwise(c, [b]) == Shift(Xor(c, Word(b)))
  {
    hide Shift, Xor, Word;
    BitwiseEmpty(Shift(Xor(c, Word(b))));
    assert [b][1..] == [];
  }

  /** One byte: a look-up for the low byte, the rest moved down. */
  method OneByte(t: array2<bv32>, c: bv32, b: octet) returns (crc: bv32)
    requires AreRows(t)
    ensures crc == Shift(Xor(c, Word(b)))
  {
    hide Advance, Shift, Xor, LowByte, HighBytes, LowOctet, Word;
    var x := Xor(c, Word(b));
    AdvanceOne(Word(LowOctet(x)));
    LowOctetWord(x);
    ShiftSplit(x);
    HighUntouched(c, b);
    crc := Xor(t[0, Index(LowOctet(x))], HighBytes(c));
  }

  lemma HighUntouched(c: bv32, b: octet)
    ensures HighBytes(Xor(c, Word(b))) == HighBytes(c)
  {
  }

  function XorOctets(a: octet, b: octet): octet
  {
    a ^ b
  }

  /** Byte `k` of the block with the state's byte folded in. */
  function FoldedOctet(c: bv32, b: octet, k: nat): octet
  {
    if k == 0 then XorOctets(b, LowOctet(c))
    else if k == 1 then XorOctets(b, LowOctet(HighBytes(c)))
    else if k == 2 then XorOctets(b, LowOctet(HighBytes(HighBytes(c))))
    else if k == 3 then XorOctets(b, LowOctet(HighBytes(HighBytes(HighBytes(c)))))
    else b
  }

  lemma FoldedOctetWord(c: bv32, b: octet, k: nat)
    ensures Word(FoldedOctet(c, b, k)) == FoldedByte(c, b, k)
  {
    hide HighBytes, Xor, LowByte, LowOctet, Word, XorOctets;
    OctetXor(b, LowOctet(c));
    OctetXor(b, LowOctet(HighBytes(c)));
    OctetXor(b, LowOctet(HighBytes(HighBytes(c))));
    OctetXor(b, LowOctet(HighBytes(HighBytes(HighBytes(c)))));
    LowOctetWord(c);
    LowOctetWord(HighBytes(c));
    LowOctetWord(HighBytes(HighBytes(c)));
    LowOctetWord(HighBytes(HighBytes(HighBytes(c))));
    XorZero(Word(b));
  }

  lemma OctetXor(a: octet, b: octet)
    ensures Word(XorOctets(a, b)) == Xor(Word(a), Word(b))
  {
  }

  /** One block: every byte through the row that advances it past the rest of the block. */
  method Block(t: array2<bv32>, c: bv32, block: seq<octet>) returns (crc: bv32)
    requires AreRows(t) && |block| == 16
    ensures crc == Bitwise(c, block)
  {
    hide Advance, FoldRows, Xor, Word, FoldedOctet, FoldedByte, Bitwise;
    ghost var f := Folded(c, block);
    crc := 0;
    assert f[0..] == f;
    XorZero(FoldRows(f));
    for k := 0 to 16
      invariant Xor(crc, FoldRows(f[k..])) == FoldRows(f)
    {
      var b := FoldedOctet(c, block[k], k);
      FoldedOctetWord(c, block[k], k);
      FoldRowsStep(f, k);
      XorAssoc(crc, Advance(f[k], 16 - k), FoldRows(f[k + 1..]));
      assert t[15 - k, Index(b)] == Advance(Word(b), 15 - k + 1);
      crc := Xor(crc, t[15 - k, Index(b)]);
    }
    assert f[16..] == [];
    FoldRowsEmpty();
    XorZero(crc);
    BlockIsBitwise(c, block);
  }

  lemma FoldRowsStep(f: seq<bv32>, k: nat)
    requires k < |f|
    ensures FoldRows(f[k..]) == Xor(Advance(f[k], |f| - k), FoldRows(f[k + 1..]))
  {
    hide Xor, Advance;
    assert f[k..][1..] == f[k + 1..];
  }

  lemma FoldRowsEmpty()
    ensures FoldRows([]) == 0
  {
  }

  // ---------- No byte alters unnoticed ----------

  lemma BitInjective(x: bv32, y: bv32)
    requires Bit(x) == Bit(y)
    ensures x == y
  {
    assert POLYNOMIAL & 0x8000_0000 != 0;
  }

  lemma {:induction false} BitsInjective(x: bv32, y: bv32, n: nat)
    requires Bits(x, n) == Bits(y, n)
    ensures x == y
  {
    hide Bit;
    if n > 0 {
      BitInjective(Bits(x, n - 1), Bits(y, n - 1));
      BitsInjective(x, y, n - 1);
    }
  }

  lemma XorInjective(x: bv32, y: bv32, z: bv32)
    requires Xor(x, z) == Xor(y, z)
    ensures x == y
  {
  }

  /** Distinct states stay distinct through the same bytes. */
  lemma {:induction false} BitwiseInjective(c: bv32, d: bv32, data: seq<octet>)
    requires Bitwise(c, data) == Bitwise(d, data)
    ensures c == d
    decreases |data|
  {
    hide Xor, Word, Bits;
    if data != [] {
      var w := Word(data[0]);
      BitwiseInjective(Shift(Xor(c, w)), Shift(Xor(d, w)), data[1..]);
      BitsInjective(Xor(c, w), Xor(d, w), 8);
      XorInjective(c, d, w);
    }
  }

  /** Altering any one byte alters the checksum. */
  lemma AlteredByteAltersChecksum(data: seq<octet>, i: nat, b: octet)
    requires i < |data| && data[i] != b
    ensures Checksum(data[i := b]) != Checksum(data)
  {
    hide Bitwise, Shift, Xor, Word, Bits;
    var before, after := data[..i], data[i + 1..];
    var c := Bitwise(INITIAL, before);
    assert data == before + [data[i]] + after && data[i := b] == before + [b] + after;
    SplitAround(before, data[i], after);
    SplitAround(before, b, after);
    NotInjective(Bitwise(INITIAL, data), Bitwise(INITIAL, data[i := b]));
    if Checksum(data[i := b]) == Checksum(data) {
      BitwiseInjective(Shift(Xor(c, Word(data[i]))), Shift(Xor(c, Word(b))), after);
      ShiftInjective(Xor(c, Word(data[i])), Xor(c, Word(b)));
      XorComm(c, Word(data[i]));
      XorComm(c, Word(b));
      XorInjective(Word(data[i]), Word(b), c);
      WordInjective(data[i], b);
    }
  }

  lemma SplitAround(before: seq<octet>, b: octet, after: seq<octet>)
    ensures Bitwise(INITIAL, before + [b] + after)
         == Bitwise(Shift(Xor(Bitwise(INITIAL, before), Word(b))), after)
  {
    hide Bitwise, Shift, Xor, Word;
    BitwiseJoin(INITIAL, before + [b], after);
    BitwiseJoin(INITIAL, before, [b]);
    BitwiseOne(Bitwise(INITIAL, before), b);
  }

  lemma ShiftInjective(x: bv32, y: bv32)
    requires Shift(x) == Shift(y)
    ensures x == y
  {
    hide Bits;
    BitsInjective(x, y, 8);
  }

  lemma NotInjective(x: bv32, y: bv32)
    ensures !x == !y ==> x == y
  {
  }

  lemma WordInjective(a: octet, b: octet)
    requires Word(a) == Word(b)
    ensures a == b
  {
  }

  // ---------- The check value ----------

  lemma EightBits(c: bv32)
    ensures Shift(c) == Bit(Bit(Bit(Bit(Bit(Bit(Bit(Bit(c))))))))
  {
    hide Bit;
    assert Bits(c, 1) == Bit(c);
    assert Bits(c, 2) == Bit(Bits(c, 1));
    assert Bits(c, 3) == Bit(Bits(c, 2));
    assert Bits(c, 4) == Bit(Bits(c, 3));
    assert Bits(c, 5) == Bit(Bits(c, 4));
    assert Bits(c, 6) == Bit(Bits(c, 5));
    assert Bits(c, 7) == Bit(Bits(c, 6));
    assert Bits(c, 8) == Bit(Bits(c, 7));
  }

  lemma OneByteMore(c: bv32, data: seq<octet>, i: nat, b: octet, next: bv32)
    requires i < |data| && data[i] == b
    requires Bit(Bit(Bit(Bit(Bit(Bit(Bit(Bit(Xor(c, Word(b)))))))))) == next
    ensures Bitwise(c, data[i..]) == Bitwise(next, data[i + 1..])
  {
    hide Shift, Xor, Word, Bit;
    assert data[i..][1..] == data[i + 1..];
    EightBits(Xor(c, Word(b)));
  }

  lemma NothingTaken(c: bv32)
    ensures Bitwise(c, []) == c
  {
  }

  /** The text 123456789. */
  const NINE_DIGITS: seq<octet> := [0x31, 0x32, 0x33, 0x34, 0x35, 0x36, 0x37, 0x38, 0x39]

  lemma FirstThree()
    ensures Bitwise(0xFFFF_FFFF, NINE_DIGITS[0..]) == Bitwise(0x77B7_9C2D, NINE_DIGITS[3..])
  {
    hide Bitwise;
    OneByteMore(0xFFFF_FFFF, NINE_DIGITS, 0, 0x31, 0x7C23_1048);
    OneByteMore(0x7C23_1048, NINE_DIGITS, 1, 0x32, 0xB0AC_BB32);
    OneByteMore(0xB0AC_BB32, NINE_DIGITS, 2, 0x33, 0x77B7_9C2D);
  }

  lemma NextThree()
    ensures Bitwise(0x77B7_9C2D, NINE_DIGITS[3..]) == Bitwise(0xF68D_2C9E, NINE_DIGITS[6..])
  {
    hide Bitwise;
    OneByteMore(0x77B7_9C2D, NINE_DIGITS, 3, 0x34, 0x641C_1F5C);
    OneByteMore(0x641C_1F5C, NINE_DIGITS, 4, 0x35, 0x340A_C5E3);
    OneByteMore(0x340A_C5E3, NINE_DIGITS, 5, 0x36, 0xF68D_2C9E);
  }

  lemma LastThree()
    ensures Bitwise(0xF68D_2C9E, NINE_DIGITS[6..]) == Bitwise(0x340B_C6D9, NINE_DIGITS[9..])
  {
    hide Bitwise;
    OneByteMore(0xF68D_2C9E, NINE_DIGITS, 6, 0x37, 0xAFFC_9660);
    OneByteMore(0xAFFC_9660, NINE_DIGITS, 7, 0x38, 0x651F_2550);
    OneByteMore(0x651F_2550, NINE_DIGITS, 8, 0x39, 0x340B_C6D9);
  }

  /** The standard's own check value. */
  lemma CheckValue()
    ensures Checksum([0x31, 0x32, 0x33, 0x34, 0x35, 0x36, 0x37, 0x38, 0x39]) == 0xCBF4_3926
  {
    hide Bitwise;
    FirstThree();
    NextThree();
    LastThree();
    assert NINE_DIGITS[0..] == NINE_DIGITS && NINE_DIGITS[9..] == [];
    NothingTaken(0x340B_C6D9);
  }
}
