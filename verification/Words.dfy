/**
 Machine words as natural numbers, with the bit operations a keyspace walk's cursor is
 advanced by, at any width. A word's position in the walk is its bit reversal: there the
 buckets of a power-of-two table are consecutive aligned blocks, and advancing a cursor is
 a move to the end of its block.

 Every function halves its argument, so every proof is linear arithmetic.
 */
module Words {

  const WIDTH: nat := 64

  const MODULUS: nat := 0x1_0000_0000_0000_0000

  type Word = x: nat | x < MODULUS

  function Pow2(n: nat): (r: nat)
    ensures r >= 1
  {
    if n == 0 then 1 else 2 * Pow2(n - 1)
  }

  function BitAnd(a: nat, b: nat, n: nat): (r: nat)
    ensures r <= b
  {
    if n == 0 then 0
    else (if a % 2 == 1 && b % 2 == 1 then 1 else 0) + 2 * BitAnd(a / 2, b / 2, n - 1)
  }

  function BitOr(a: nat, b: nat, n: nat): nat
  {
    if n == 0 then 0
    else (if a % 2 == 1 || b % 2 == 1 then 1 else 0) + 2 * BitOr(a / 2, b / 2, n - 1)
  }

  function BitXor(a: nat, b: nat, n: nat): nat
  {
    if n == 0 then 0
    else (if a % 2 != b % 2 then 1 else 0) + 2 * BitXor(a / 2, b / 2, n - 1)
  }

  function BitNot(a: nat, n: nat): nat
  {
    if n == 0 then 0
    else (if a % 2 == 1 then 0 else 1) + 2 * BitNot(a / 2, n - 1)
  }

  /** The low `n` bits of `x`, in the opposite order. */
  function Reverse(x: nat, n: nat): (r: nat)
    ensures r < Pow2(n)
  {
    if n == 0 then 0
    else (if x % 2 == 1 then Pow2(n - 1) else 0) + Reverse(x / 2, n - 1)
  }

  /** The low `k` bits of `x`. */
  function Low(x: nat, k: nat): (r: nat)
    ensures r < Pow2(k)
  {
    if k == 0 then 0 else x % 2 + 2 * Low(x / 2, k - 1)
  }

  /** `x` without its low `k` bits. */
  function High(x: nat, k: nat): nat
  {
    if k == 0 then x else High(x / 2, k - 1)
  }

  function Shl(x: nat, k: nat): nat
  {
    if k == 0 then x else 2 * Shl(x, k - 1)
  }

  // ---------- Powers of two ----------

  /** The exponent of a power of two. */
  function Log2(n: nat): nat
  {
    if n <= 1 then 0 else 1 + Log2(n / 2)
  }

  predicate PowerOfTwo(n: nat)
  {
    n == Pow2(Log2(n))
  }

  lemma {:induction false} Log2OfPow2(k: nat)
    ensures Log2(Pow2(k)) == k
  {
    if k > 0 {
      Log2OfPow2(k - 1);
    }
  }

  lemma {:induction false} Pow2Monotone(a: nat, b: nat)
    requires a <= b
    ensures Pow2(a) <= Pow2(b)
    ensures a < b ==> 2 * Pow2(a) <= Pow2(b)
    decreases b
  {
    if a < b {
      Pow2Monotone(a, b - 1);
    }
  }

  lemma {:induction false} ShlPow2(i: nat, j: nat)
    ensures Shl(Pow2(i), j) == Pow2(i + j)
    decreases j
  {
    if j > 0 {
      ShlPow2(i, j - 1);
    }
  }

  lemma WordModulus()
    ensures Pow2(WIDTH) == MODULUS
  {
    hide Pow2;
    Sixteen();
    Pow2Sum(4, 4);
    Pow2Sum(8, 8);
    Pow2Sum(16, 16);
    Pow2Sum(32, 32);
  }

  lemma Sixteen()
    ensures Pow2(4) == 16
  {
  }

  lemma {:induction false} Pow2Sum(a: nat, b: nat)
    ensures Pow2(a + b) == Pow2(a) * Pow2(b)
  {
    if a > 0 {
      Pow2Sum(a - 1, b);
    }
  }

  // ---------- Splitting a word ----------

  lemma {:induction false} ShlSum(a: nat, b: nat, j: nat)
    ensures Shl(a + b, j) == Shl(a, j) + Shl(b, j)
  {
    if j > 0 {
      ShlSum(a, b, j - 1);
    }
  }

  lemma {:induction false} ShlHalf(a: nat, j: nat)
    requires j > 0
    ensures Shl(a, j) % 2 == 0 && Shl(a, j) / 2 == Shl(a, j - 1)
  {
  }

  lemma {:induction false} ShlMonotone(a: nat, b: nat, j: nat)
    requires a < b
    ensures Shl(a, j) + Pow2(j) <= Shl(b, j)
  {
    if j > 0 {
      ShlMonotone(a, b, j - 1);
    }
  }

  /** A word is its high part, shifted up, over its low part. */
  lemma {:induction false} SplitWord(x: nat, k: nat)
    ensures x == Shl(High(x, k), k) + Low(x, k)
  {
    if k > 0 {
      SplitWord(x / 2, k - 1);
    }
  }

  /** The two parts of a word are determined by it. */
  lemma {:induction false} JoinWord(q: nat, r: nat, k: nat)
    requires r < Pow2(k)
    ensures High(Shl(q, k) + r, k) == q
    ensures Low(Shl(q, k) + r, k) == r
  {
    if k > 0 {
      ShlHalf(q, k);
      JoinWord(q, r / 2, k - 1);
    }
  }

  lemma {:induction false} LowOfSmall(x: nat, k: nat)
    requires x < Pow2(k)
    ensures Low(x, k) == x && High(x, k) == 0
  {
    if k > 0 {
      LowOfSmall(x / 2, k - 1);
    }
  }

  lemma {:induction false} HighMonotone(x: nat, y: nat, k: nat)
    requires x <= y
    ensures High(x, k) <= High(y, k)
  {
    if k > 0 {
      HighMonotone(x / 2, y / 2, k - 1);
    }
  }

  lemma {:induction false} HighSmall(x: nat, n: nat, k: nat)
    requires k <= n && x < Pow2(n)
    ensures High(x, k) < Pow2(n - k)
  {
    if k > 0 {
      HighSmall(x / 2, n - 1, k - 1);
    }
  }

  // ---------- Masks ----------

  /** `x & (2^k - 1)` is the low `k` bits of `x`. */
  lemma {:induction false} AndMask(x: nat, k: nat, n: nat)
    requires k <= n
    ensures BitAnd(x, Pow2(k) - 1, n) == Low(x, k)
  {
    if k == 0 {
      AndZero(x, n);
    } else {
      AndMask(x / 2, k - 1, n - 1);
    }
  }

  lemma {:induction false} AndZero(x: nat, n: nat)
    ensures BitAnd(x, 0, n) == 0
  {
    if n > 0 {
      AndZero(x / 2, n - 1);
    }
  }

  /** `x & 2^k` is bit `k` of `x`, in place. */
  lemma {:induction false} AndBit(x: nat, k: nat, n: nat)
    requires k < n
    ensures BitAnd(x, Pow2(k), n) == if High(x, k) % 2 == 1 then Pow2(k) else 0
  {
    if k == 0 {
      AndZero(x / 2, n - 1);
    } else {
      AndBit(x / 2, k - 1, n - 1);
    }
  }

  /** The masks of a table and of one twice its size differ in one bit. */
  lemma {:induction false} XorMasks(k: nat, n: nat)
    requires k < n
    ensures BitXor(Pow2(k) - 1, Pow2(k + 1) - 1, n) == Pow2(k)
  {
    if k == 0 {
      XorSame(0, n - 1);
    } else {
      XorMasks(k - 1, n - 1);
    }
  }

  lemma {:induction false} XorSame(x: nat, n: nat)
    ensures BitXor(x, x, n) == 0
  {
    if n > 0 {
      XorSame(x / 2, n - 1);
    }
  }

  /** Setting every bit outside a mask leaves the low bits and makes the rest all ones. */
  lemma OrNotMask(x: nat, k: nat, j: nat)
    ensures BitOr(x, BitNot(Pow2(k) - 1, k + j), k + j) == Shl(Pow2(j) - 1, k) + Low(x, k)
  {
    hide *;
    NotMask(k, j);
    OrHigh(x, k, j);
  }

  lemma {:induction false} NotMask(k: nat, j: nat)
    ensures BitNot(Pow2(k) - 1, k + j) == Shl(Pow2(j) - 1, k)
    decreases k
  {
    if k == 0 {
      NotZero(j);
    } else {
      NotMask(k - 1, j);
    }
  }

  lemma {:induction false} NotZero(n: nat)
    ensures BitNot(0, n) == Pow2(n) - 1
  {
    if n > 0 {
      NotZero(n - 1);
    }
  }

  lemma {:induction false} OrHigh(x: nat, k: nat, j: nat)
    ensures BitOr(x, Shl(Pow2(j) - 1, k), k + j) == Shl(Pow2(j) - 1, k) + Low(x, k)
    decreases k
  {
    if k == 0 {
      OrOnes(x, j);
    } else {
      ShlHalf(Pow2(j) - 1, k);
      OrHigh(x / 2, k - 1, j);
    }
  }

  lemma {:induction false} OrOnes(x: nat, n: nat)
    ensures BitOr(x, Pow2(n) - 1, n) == Pow2(n) - 1
  {
    if n > 0 {
      var ones := Pow2(n) - 1;
      assert ones % 2 == 1 && ones / 2 == Pow2(n - 1) - 1;
      OrOnes(x / 2, n - 1);
    }
  }

  // ---------- Bit reversal ----------

  /** Reversing `k + j` bits puts the reversed low `k` above the reversed rest. */
  lemma {:induction false} ReverseSplit(x: nat, k: nat, j: nat)
    ensures Reverse(x, k + j) == Shl(Reverse(Low(x, k), k), j) + Reverse(High(x, k), j)
    decreases k
  {
    hide Pow2, Reverse, Low, High, Shl;
    if k == 0 {
      ShlZero(j);
      NothingSplit(x);
    } else {
      var low := Reverse(Low(x / 2, k - 1), k - 1);
      ReverseSplit(x / 2, k - 1, j);
      ReverseLow(x, k);
      ReverseStep(x, k + j);
      assert k + j - 1 == k - 1 + j;
      HighStep(x, k);
      if x % 2 == 1 {
        ShlSum(Pow2(k - 1), low, j);
        ShlPow2(k - 1, j);
      }
    }
  }

  lemma NothingSplit(x: nat)
    ensures Low(x, 0) == 0 && High(x, 0) == x && Reverse(0, 0) == 0
  {
  }

  lemma ReverseStep(x: nat, n: nat)
    requires n > 0
    ensures Reverse(x, n) == (if x % 2 == 1 then Pow2(n - 1) else 0) + Reverse(x / 2, n - 1)
  {
  }

  lemma HighStep(x: nat, k: nat)
    requires k > 0
    ensures High(x, k) == High(x / 2, k - 1)
  {
  }

  lemma ReverseLow(x: nat, k: nat)
    requires k > 0
    ensures Reverse(Low(x, k), k) == (if x % 2 == 1 then Pow2(k - 1) else 0) + Reverse(Low(x / 2, k - 1), k - 1)
  {
    assert Low(x, k) == x % 2 + 2 * Low(x / 2, k - 1);
  }

  lemma {:induction false} ShlZero(j: nat)
    ensures Shl(0, j) == 0
  {
    if j > 0 {
      ShlZero(j - 1);
    }
  }

  lemma ShlOne(j: nat)
    ensures Shl(1, j) == Pow2(j)
  {
    ShlPow2(0, j);
  }

  lemma {:induction false} ReverseZero(n: nat)
    ensures Reverse(0, n) == 0
  {
    if n > 0 {
      ReverseZero(n - 1);
    }
  }

  lemma {:induction false} ReverseOnes(n: nat)
    ensures Reverse(Pow2(n) - 1, n) == Pow2(n) - 1
  {
    if n > 0 {
      var ones := Pow2(n) - 1;
      assert ones % 2 == 1 && ones / 2 == Pow2(n - 1) - 1;
      ReverseOnes(n - 1);
    }
  }

  /** Reversal again, peeling the top bit instead of the bottom one. */
  lemma ReverseTop(x: nat, n: nat)
    requires n > 0 && x < Pow2(n)
    ensures Reverse(x, n) == 2 * Reverse(Low(x, n - 1), n - 1) + High(x, n - 1)
    ensures High(x, n - 1) < 2
  {
    ReverseSplit(x, n - 1, 1);
    HighSmall(x, n, n - 1);
    assert Reverse(High(x, n - 1), 1) == High(x, n - 1);
  }

  lemma NothingReversed(x: nat)
    ensures Reverse(x, 0) == 0 && Pow2(0) == 1
  {
  }

  lemma {:induction false} ReverseInvolution(x: nat, n: nat)
    requires x < Pow2(n)
    ensures Reverse(Reverse(x, n), n) == x
    decreases n
  {
    hide Pow2, Reverse, Low, High, Shl;
    if n == 0 {
      NothingReversed(x);
    } else {
      ReverseTop(x, n);
      ReverseStep(Reverse(x, n), n);
      ReverseInvolution(Low(x, n - 1), n - 1);
      SplitWord(x, n - 1);
      ShlOne(n - 1);
      ShlZero(n - 1);
    }
  }
}
