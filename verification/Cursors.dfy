/**
 The cursor of a keyspace walk: bucket selection, the reverse-binary increment, and what both
 mean once a word is read through its bit reversal.
 */
module Cursors {
  import opened Words

  /** The bucket a hash selects in a table of `buckets` buckets. */
  function BucketIndex(hash: Word, buckets: nat): (r: nat)
    requires buckets > 0
    ensures r < buckets
  {
    BitAnd(hash, buckets - 1, WIDTH)
  }

  /** The cursor after one bucket, in the order that counts from the top bit of the mask down. */
  function ReverseIncrement(cursor: Word, mask: nat): Word
  {
    WordModulus();
    ReverseIncrementAt(cursor, mask, WIDTH)
  }

  /** The increment on words of `n` bits: widened outside the mask, reversed, incremented with
      wrap-around, and reversed back. */
  function ReverseIncrementAt(cursor: nat, mask: nat, n: nat): (r: nat)
    ensures r < Pow2(n)
  {
    var widened := BitOr(cursor, BitNot(mask, n), n);
    Reverse((Reverse(widened, n) + 1) % Pow2(n), n)
  }

  /** Where in the walk a word lies. */
  function Position(w: Word): Word
  {
    WordModulus();
    Reverse(w, WIDTH)
  }

  /** The aligned block of positions a word lies in, among `2^k` of them. */
  function Block(w: Word, k: nat): nat
    requires k <= WIDTH
  {
    High(Position(w), WIDTH - k)
  }

  /** The first position of block `q`, among `2^k` of them. */
  function BlockStart(q: nat, k: nat): nat
    requires k <= WIDTH
  {
    Shl(q, WIDTH - k)
  }

  lemma BucketIsLowBits(hash: Word, k: nat)
    requires k <= WIDTH
    ensures BucketIndex(hash, Pow2(k)) == Low(hash, k) < Pow2(k)
  {
    AndMask(hash, k, WIDTH);
  }

  lemma BlockIsReversedBucket(w: Word, k: nat)
    requires k <= WIDTH
    ensures Block(w, k) == Reverse(Low(w, k), k) < Pow2(k)
  {
    ReverseSplit(w, k, WIDTH - k);
    JoinWord(Reverse(Low(w, k), k), Reverse(High(w, k), WIDTH - k), WIDTH - k);
  }

  /** Two words select one bucket exactly when they lie in one block. */
  lemma SameBucketSameBlock(x: Word, y: Word, k: nat)
    requires k <= WIDTH
    ensures BucketIndex(x, Pow2(k)) == BucketIndex(y, Pow2(k)) <==> Block(x, k) == Block(y, k)
  {
    BucketIsLowBits(x, k);
    BucketIsLowBits(y, k);
    BlockIsReversedBucket(x, k);
    BlockIsReversedBucket(y, k);
    ReverseInvolution(Low(x, k), k);
    ReverseInvolution(Low(y, k), k);
  }

  /** A word lies in its block: at or after its start, and before the next one's. */
  lemma BlockBounds(w: Word, k: nat)
    requires k <= WIDTH
    ensures BlockStart(Block(w, k), k) <= Position(w) < BlockStart(Block(w, k) + 1, k)
    ensures BlockStart(Block(w, k) + 1, k) == BlockStart(Block(w, k), k) + Pow2(WIDTH - k)
  {
    var j := WIDTH - k;
    SplitWord(Position(w), j);
    ShlSum(Block(w, k), 1, j);
    ShlPow2(0, j);
  }

  /** The blocks end where the words do. */
  lemma BlocksEnd(k: nat)
    requires k <= WIDTH
    ensures BlockStart(Pow2(k), k) == MODULUS
  {
    ShlPow2(k, WIDTH - k);
    WordModulus();
  }

  /** An advance lands on the start of the next block, or on zero past the last one. */
  lemma AdvanceReachesBlockEnd(cursor: Word, k: nat)
    requires k <= WIDTH
    ensures var next := ReverseIncrement(cursor, Pow2(k) - 1);
            && next < Pow2(k)
            && Position(next) == (if Block(cursor, k) + 1 == Pow2(k) then 0 else BlockStart(Block(cursor, k) + 1, k))
            && (next == 0 <==> Block(cursor, k) + 1 == Pow2(k))
  {
    hide Words.Reverse, Words.Low, Words.High, Words.Pow2, ReverseIncrementAt;
    AdvanceAt(cursor, k, WIDTH - k);
    BlockIsReversedBucket(cursor, k);
  }

  lemma AdvanceAt(cursor: nat, k: nat, j: nat)
    ensures var q := Reverse(Low(cursor, k), k);
            var next := ReverseIncrementAt(cursor, Pow2(k) - 1, k + j);
            && next < Pow2(k)
            && Reverse(next, k + j) == (if q + 1 == Pow2(k) then 0 else Shl(q + 1, j))
            && (next == 0 <==> q + 1 == Pow2(k))
  {
    hide Words.Reverse, Words.Low, Words.Shl, Words.BitOr, Words.BitNot, Words.Pow2;
    var q := Reverse(Low(cursor, k), k);
    var landed := if q + 1 == Pow2(k) then 0 else q + 1;
    WidenedReverse(cursor, k, j);
    BlockAfter(q, k, j);
    LandsLow(landed, k, j);
    ReverseInvolution(Shl(landed, j), k + j);
    ReverseZero(k);
    ReverseInvolution(landed, k);
  }

  /** The end of block `q`, reduced to the width: the start of the next one, or zero. */
  lemma BlockAfter(q: nat, k: nat, j: nat)
    requires q < Pow2(k)
    ensures var landed := if q + 1 == Pow2(k) then 0 else q + 1;
            && Shl(landed, j) < Pow2(k + j)
            && (Shl(q, j) + Pow2(j)) % Pow2(k + j) == Shl(landed, j)
            && (landed == 0 ==> Shl(landed, j) == 0)
  {
    hide *;
    ShlSum(q, 1, j);
    ShlOne(j);
    ShlPow2(k, j);
    ShlZero(j);
    if q + 1 < Pow2(k) {
      ShlMonotone(q + 1, Pow2(k), j);
    }
  }

  lemma WidenedReverse(cursor: nat, k: nat, j: nat)
    ensures Reverse(BitOr(cursor, BitNot(Pow2(k) - 1, k + j), k + j), k + j)
         == Shl(Reverse(Low(cursor, k), k), j) + Pow2(j) - 1
  {
    hide *;
    OrNotMask(cursor, k, j);
    ReverseJoined(Pow2(j) - 1, Low(cursor, k), k, j);
    ReverseOnes(j);
  }

  lemma ReverseJoined(q: nat, r: nat, k: nat, j: nat)
    requires r < Pow2(k)
    ensures Reverse(Shl(q, k) + r, k + j) == Shl(Reverse(r, k), j) + Reverse(q, j)
  {
    JoinWord(q, r, k);
    ReverseSplit(Shl(q, k) + r, k, j);
  }

  /** A word at the start of a block is masked: it has no bit above the table's. */
  lemma LandsLow(q: nat, k: nat, j: nat)
    ensures Reverse(Shl(q, j), k + j) == Reverse(q, k) < Pow2(k)
  {
    JoinWord(q, 0, j);
    ReverseSplit(Shl(q, j), j, k);
    ReverseZero(j);
    ShlZero(k);
  }
}
