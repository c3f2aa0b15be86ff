/**
 The cursor walk over a keyspace: what one step visits and where it leaves the cursor, with
 one table or two.
 */
module Scans {
  import opened Basics
  import opened Words
  import opened Cursors
  import opened Tables
  import opened Keyspaces

  /** The bucket a cursor selects. */
  function BucketAt(t: Table, cursor: Word): Bucket
    requires |t| > 0
  {
    t[BucketIndex(cursor, |t|)]
  }

  /** Whether the walk of the larger table has carried back into the bits the smaller one's
      mask covers. */
  predicate Carried(v: Word, small: nat, large: nat)
    requires small > 0 && large > 0
  {
    BitAnd(v, BitXor(small - 1, large - 1, WIDTH), WIDTH) == 0
  }

  /** The slots one step visits. While two tables coexist that is one bucket of the smaller
      and the one or two buckets of the larger the cursor still has in front of it. */
  function Visits(s: Keyspace, cursor: Word): seq<Slot>
    requires Shape(s)
  {
    if s.len == 0 then []
    else if s.next.None? then BucketAt(s.base, cursor)
    else
      var next := s.next.value;
      var v := ReverseIncrement(cursor, |next| - 1);
      var first := BucketAt(s.base, cursor) + BucketAt(next, cursor);
      if Carried(v, |s.base|, |next|) then first else first + BucketAt(next, v)
  }

  /** The cursor one step hands back; zero ends the cycle. */
  function NextCursor(s: Keyspace, cursor: Word): Word
    requires Shape(s)
  {
    if s.len == 0 then 0
    else if s.next.None? then ReverseIncrement(cursor, |s.base| - 1)
    else
      var next := s.next.value;
      var v := ReverseIncrement(cursor, |next| - 1);
      if Carried(v, |s.base|, |next|) then v else ReverseIncrement(v, |next| - 1)
  }

  /** How many bits of a hash the smaller table reads. */
  function Bits(s: Keyspace): nat
  {
    Log2(|s.base|)
  }

  // ---------- Blocks at two resolutions ----------

  lemma {:induction false} HighAgain(x: nat, j: nat)
    ensures High(x, j + 1) == High(x, j) / 2
  {
    if j > 0 {
      HighAgain(x / 2, j - 1);
    }
  }

  lemma {:induction false} ShlDouble(q: nat, j: nat)
    ensures Shl(2 * q, j) == Shl(q, j + 1)
  {
    if j > 0 {
      ShlDouble(q, j - 1);
    }
  }

  /** Doubling a table splits each block in two. */
  lemma BlockSplits(w: Word, k: nat)
    requires k < WIDTH
    ensures Block(w, k) == Block(w, k + 1) / 2
  {
    HighAgain(Position(w), WIDTH - k - 1);
  }

  lemma StartSplits(q: nat, k: nat)
    requires k < WIDTH
    ensures BlockStart(2 * q, k + 1) == BlockStart(q, k)
  {
    ShlDouble(q, WIDTH - k - 1);
  }

  /** A word between a cursor and the end of its block lies in that block. */
  lemma BlockBetween(x: Word, y: Word, k: nat)
    requires k <= WIDTH
    requires Position(x) <= Position(y) < BlockStart(Block(x, k) + 1, k)
    ensures Block(y, k) == Block(x, k)
  {
    hide Cursors.Position, Words.High, Words.Shl;
    HighMonotone(Position(x), Position(y), WIDTH - k);
    BlockBounds(y, k);
    if Block(x, k) < Block(y, k) {
      BlockOrder(Block(x, k) + 1, Block(y, k), k);
    }
  }

  lemma BlockOrder(q: nat, q': nat, k: nat)
    requires k <= WIDTH && q <= q'
    ensures BlockStart(q, k) <= BlockStart(q', k)
    ensures q < q' ==> BlockStart(q, k) < BlockStart(q', k)
  {
    if q < q' {
      ShlMonotone(q, q', WIDTH - k);
    }
  }

  lemma BlockMonotone(x: Word, y: Word, k: nat)
    requires k <= WIDTH && Position(x) <= Position(y)
    ensures Block(x, k) <= Block(y, k)
  {
    HighMonotone(Position(x), Position(y), WIDTH - k);
  }

  /** The word a block starts at lies in it. */
  lemma BlockOfStart(w: Word, q: nat, k: nat)
    requires k <= WIDTH && Position(w) == BlockStart(q, k)
    ensures Block(w, k) == q
  {
    JoinWord(q, 0, WIDTH - k);
  }

  /** Among `2^(k+1)` blocks, the walk has carried exactly when it stands at an even one. */
  lemma CarriedIsEven(v: Word, k: nat)
    requires k < WIDTH && v < Pow2(k + 1)
    ensures Carried(v, Pow2(k), Pow2(k + 1)) <==> Block(v, k + 1) % 2 == 0
  {
    hide Words.BitAnd, Words.BitXor, Words.Reverse, Words.Low, Cursors.Block, Cursors.Position;
    XorMasks(k, WIDTH);
    AndBit(v, k, WIDTH);
    BlockIsReversedBucket(v, k + 1);
    LowOfSmall(v, k + 1);
    ReverseTop(v, k + 1);
  }

  // ---------- Where a step ends ----------

  lemma Sizes(s: Keyspace, h: Hasher)
    requires Placed(s, h)
    ensures Bits(s) <= MAX_BUCKET_BITS && |s.base| == Pow2(Bits(s))
    ensures s.next.Some? ==> |s.next.value| == Pow2(Bits(s) + 1)
  {
    hide Words.Log2;
  }

  /** One step moves the cursor to the end of its block of the smaller table, with one table
      or two; past the last block it is zero, and nowhere else. */
  lemma StepReachesBlockEnd(s: Keyspace, h: Hasher, cursor: Word)
    requires Placed(s, h) && s.len != 0
    ensures Bits(s) <= MAX_BUCKET_BITS && |s.base| == Pow2(Bits(s))
    ensures var k, q, next := Bits(s), Block(cursor, Bits(s)), NextCursor(s, cursor);
            && q < Pow2(k)
            && next < Pow2(k)
            && Position(next) == (if q + 1 == Pow2(k) then 0 else BlockStart(q + 1, k))
            && (next == 0 <==> q + 1 == Pow2(k))
  {
    hide Cursors.ReverseIncrement, Cursors.Block, Cursors.Position, Cursors.BlockStart, Carried, Keyspaces.Placed, Bits;
    var k := Bits(s);
    Sizes(s, h);
    BlockIsReversedBucket(cursor, k);
    if s.next.None? {
      AdvanceReachesBlockEnd(cursor, k);
    } else {
      TwoTableEnd(cursor, k);
    }
  }

  /** Where the loop over the larger table's buckets leaves the cursor. */
  function LoopEnd(cursor: Word, small: nat, large: nat): Word
    requires small > 0 && large > 0
  {
    var v := ReverseIncrement(cursor, large - 1);
    if Carried(v, small, large) then v else ReverseIncrement(v, large - 1)
  }

  lemma TwoTableEnd(cursor: Word, k: nat)
    requires k < WIDTH
    ensures var q, v := Block(cursor, k), LoopEnd(cursor, Pow2(k), Pow2(k + 1));
            && v < Pow2(k)
            && Position(v) == (if q + 1 == Pow2(k) then 0 else BlockStart(q + 1, k))
            && (v == 0 <==> q + 1 == Pow2(k))
            && Carried(v, Pow2(k), Pow2(k + 1))
  {
    hide Cursors.ReverseIncrement, Cursors.Block, Cursors.Position, Cursors.BlockStart, Carried;
    var q := Block(cursor, k);
    var v := ReverseIncrement(cursor, Pow2(k + 1) - 1);
    HalfStep(cursor, k);
    BlockSplits(cursor, k);
    if Block(cursor, k + 1) % 2 == 0 {
      HalfStep(v, k);
      BlockSplits(v, k);
    }
    LoopLandsLow(LoopEnd(cursor, Pow2(k), Pow2(k + 1)), k);
    StartSplits(q + 1, k);
  }

  lemma Pow2IsEven(k: nat)
    ensures Pow2(k + 1) == 2 * Pow2(k)
  {
  }

  lemma FirstBlock(k: nat)
    requires k <= WIDTH
    ensures BlockStart(0, k) == 0
  {
    ShlZero(WIDTH - k);
  }

  /** One advance under the larger mask: to the next half block, carried after an odd one. */
  lemma HalfStep(cursor: Word, k: nat)
    requires k < WIDTH
    ensures var p, v := Block(cursor, k + 1), ReverseIncrement(cursor, Pow2(k + 1) - 1);
            && p < Pow2(k + 1)
            && v < Pow2(k + 1)
            && Position(v) == (if p + 1 == Pow2(k + 1) then 0 else BlockStart(p + 1, k + 1))
            && Block(v, k + 1) == (if p + 1 == Pow2(k + 1) then 0 else p + 1)
            && (v == 0 <==> p + 1 == Pow2(k + 1))
            && (Carried(v, Pow2(k), Pow2(k + 1)) <==> p % 2 == 1)
  {
    hide Cursors.ReverseIncrement, Cursors.Block, Cursors.Position, Carried, Words.Pow2, Cursors.BlockStart;
    var p, v := Block(cursor, k + 1), ReverseIncrement(cursor, Pow2(k + 1) - 1);
    AdvanceReachesBlockEnd(cursor, k + 1);
    BlockIsReversedBucket(cursor, k + 1);
    CarriedIsEven(v, k);
    Pow2IsEven(k);
    FirstBlock(k + 1);
    BlockOfStart(v, if p + 1 == Pow2(k + 1) then 0 else p + 1, k + 1);
  }

  /** A carried cursor within the larger mask is within the smaller one. */
  lemma LoopLandsLow(v: Word, k: nat)
    requires k < WIDTH && v < Pow2(k + 1) && Carried(v, Pow2(k), Pow2(k + 1))
    ensures v < Pow2(k)
  {
    hide Words.BitAnd, Words.BitXor;
    XorMasks(k, WIDTH);
    AndBit(v, k, WIDTH);
    SplitWord(v, k);
    HighSmall(v, k + 1, k);
    ShlZero(k);
  }

  // ---------- What a step covers ----------

  /** A step visits every stored key from the cursor's position to where it leaves it. */
  lemma StepCovers(s: Keyspace, h: Hasher, cursor: Word, key: Key)
    requires Placed(s, h) && s.len != 0 && Get(s, h, key).Some?
    requires Position(cursor) <= Position(h(key))
    requires NextCursor(s, cursor) == 0 || Position(h(key)) < Position(NextCursor(s, cursor))
    ensures Slot(h(key), key, Get(s, h, key).value) in Visits(s, cursor)
  {
    hide Cursors.ReverseIncrement, Cursors.Block, Cursors.Position, Cursors.BlockStart, Carried, Cursors.BucketIndex,
         Words.Log2, Words.Pow2, Keyspaces.Placed;
    var k := Bits(s);
    StepReachesBlockEnd(s, h, cursor);
    BlockBounds(h(key), k);
    BlocksEnd(k);
    BlockBetween(cursor, h(key), k);
    SameBucketSameBlock(h(key), cursor, k);
    if Find(s.base, h(key), key).None? {
      CoveredInLarger(s, h, cursor, key);
    }
  }

  lemma CoveredInLarger(s: Keyspace, h: Hasher, cursor: Word, key: Key)
    requires Placed(s, h) && s.len != 0 && s.next.Some? && Find(s.next.value, h(key), key).Some?
    requires Position(cursor) <= Position(h(key)) && Block(h(key), Bits(s)) == Block(cursor, Bits(s))
    ensures Slot(h(key), key, Find(s.next.value, h(key), key).value) in Visits(s, cursor)
  {
    hide Cursors.ReverseIncrement, Cursors.Block, Cursors.Position, Carried, Cursors.BucketIndex, Tables.Find,
         Keyspaces.Placed, Words.Pow2, Bits;
    Sizes(s, h);
    FoundInBucket(s.next.value, h(key), key);
    LoopReaches(cursor, h(key), Bits(s));
  }

  lemma FoundInBucket(t: Table, hash: Word, key: Key)
    requires |t| > 0 && Find(t, hash, key).Some?
    ensures Slot(hash, key, Find(t, hash, key).value) in t[BucketIndex(hash, |t|)]
  {
  }

  /** The loop over the larger table reaches the bucket of any word left in the cursor's block. */
  lemma LoopReaches(cursor: Word, w: Word, k: nat)
    requires k < WIDTH && Position(cursor) <= Position(w) && Block(w, k) == Block(cursor, k)
    ensures var v := ReverseIncrement(cursor, Pow2(k + 1) - 1);
            || BucketIndex(w, Pow2(k + 1)) == BucketIndex(cursor, Pow2(k + 1))
            || (!Carried(v, Pow2(k), Pow2(k + 1)) && BucketIndex(w, Pow2(k + 1)) == BucketIndex(v, Pow2(k + 1)))
  {
    hide Cursors.ReverseIncrement, Cursors.Block, Cursors.Position, Carried, Cursors.BucketIndex, Words.Pow2;
    var v := ReverseIncrement(cursor, Pow2(k + 1) - 1);
    HalfStep(cursor, k);
    BlockSplits(cursor, k);
    BlockSplits(w, k);
    BlockIsReversedBucket(w, k + 1);
    BlockMonotone(cursor, w, k + 1);
    SameBucketSameBlock(w, cursor, k + 1);
    SameBucketSameBlock(w, v, k + 1);
  }

  /** What a step visits is stored: every slot visited is the one its key finds. */
  lemma VisitsAreStored(s: Keyspace, h: Hasher, cursor: Word, slot: Slot)
    requires Placed(s, h) && slot in Visits(s, cursor)
    ensures slot.hash == h(slot.key) && Get(s, h, slot.key) == Some(slot.entry)
  {
    hide Cursors.ReverseIncrement, Carried;
    if s.next.None? {
      BucketIsStored(s.base, h, cursor, slot);
    } else {
      var v := ReverseIncrement(cursor, |s.next.value| - 1);
      if slot in BucketAt(s.base, cursor) {
        BucketIsStored(s.base, h, cursor, slot);
      } else if slot in BucketAt(s.next.value, cursor) {
        BucketIsStored(s.next.value, h, cursor, slot);
      } else {
        BucketIsStored(s.next.value, h, v, slot);
      }
    }
  }

  lemma BucketIsStored(t: Table, h: Hasher, cursor: Word, slot: Slot)
    requires TableOk(t, h) && slot in BucketAt(t, cursor)
    ensures slot.hash == h(slot.key) && Find(t, h(slot.key), slot.key) == Some(slot.entry)
  {
    hide Words.Log2, Words.PowerOfTwo;
    var i := BucketIndex(cursor, |t|);
    assert BucketOk(t[i], i, |t|, h);
    var j :| 0 <= j < |t[i]| && t[i][j] == slot;
    HeldAt(t[i], i, |t|, h, j);
  }
}
