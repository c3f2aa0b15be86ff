/**
 Repeated steps of the walk over a keyspace that does not change between them: a bounded run
 that stops at the end of the cycle, and a lap that goes round it.
 */
module Walks {
  import opened Basics
  import opened Words
  import opened Cursors
  import opened Tables
  import opened Keyspaces
  import opened Scans

  // ---------- A bounded run ----------

  datatype Stretch = Stretch(slots: seq<Slot>, cursor: Word, steps: nat)

  /** Up to `budget` steps from `cursor`, stopping when the cycle ends. */
  function Walk(s: Keyspace, cursor: Word, budget: nat): Stretch
    requires Shape(s)
    decreases budget
  {
    if budget == 0 then Stretch([], cursor, 0)
    else
      var next := NextCursor(s, cursor);
      if next == 0 then Stretch(Visits(s, cursor), 0, 1)
      else
        var rest := Walk(s, next, budget - 1);
        Stretch(Visits(s, cursor) + rest.slots, rest.cursor, rest.steps + 1)
  }

  /** A bounded run visits every stored key from its cursor to where it stops. */
  lemma {:induction false} WalkCovers(s: Keyspace, h: Hasher, cursor: Word, budget: nat, key: Key)
    requires Placed(s, h) && s.len != 0 && budget > 0 && Get(s, h, key).Some?
    requires Position(cursor) <= Position(h(key))
    requires var end := Walk(s, cursor, budget).cursor; end == 0 || Position(h(key)) < Position(end)
    ensures Slot(h(key), key, Get(s, h, key).value) in Walk(s, cursor, budget).slots
    decreases budget
  {
    hide Cursors.Position, Visits, NextCursor, Keyspaces.Placed, Keyspaces.Get;
    var next := NextCursor(s, cursor);
    if next == 0 || Position(h(key)) < Position(next) {
      StepCovers(s, h, cursor, key);
    } else if budget > 1 {
      WalkCovers(s, h, next, budget - 1, key);
    }
  }

  lemma {:induction false} WalkIsStored(s: Keyspace, h: Hasher, cursor: Word, budget: nat, slot: Slot)
    requires Placed(s, h) && slot in Walk(s, cursor, budget).slots
    ensures slot.hash == h(slot.key) && Get(s, h, slot.key) == Some(slot.entry)
    decreases budget
  {
    hide Visits, NextCursor, Keyspaces.Placed, Keyspaces.Get;
    if slot in Visits(s, cursor) {
      VisitsAreStored(s, h, cursor, slot);
    } else {
      WalkIsStored(s, h, NextCursor(s, cursor), budget - 1, slot);
    }
  }

  /** A run takes at least one step and at most its budget, only an ended cycle stops it short,
      and it leaves a cursor within the widest table's mask. */
  lemma {:induction false} WalkBounds(s: Keyspace, h: Hasher, cursor: Word, budget: nat)
    requires Placed(s, h) && budget > 0
    ensures var w := Walk(s, cursor, budget);
            && 1 <= w.steps <= budget
            && (w.steps < budget ==> w.cursor == 0)
            && w.cursor < Pow2(MAX_BUCKET_BITS)
    decreases budget
  {
    hide Visits, NextCursor, Keyspaces.Placed, Words.Pow2;
    CursorIsMasked(s, h, cursor);
    if NextCursor(s, cursor) != 0 && budget > 1 {
      WalkBounds(s, h, NextCursor(s, cursor), budget - 1);
    }
  }

  /** A step's cursor never leaves the mask of the smaller table. */
  lemma CursorIsMasked(s: Keyspace, h: Hasher, cursor: Word)
    requires Placed(s, h)
    ensures NextCursor(s, cursor) < Pow2(MAX_BUCKET_BITS)
  {
    hide Keyspaces.Placed, Cursors.Position, Cursors.Block, Cursors.BlockStart, Words.Pow2;
    if s.len != 0 {
      StepReachesBlockEnd(s, h, cursor);
      Pow2Monotone(Bits(s), MAX_BUCKET_BITS);
    }
  }

  // ---------- No key twice ----------

  ghost predicate DistinctKeys(slots: seq<Slot>)
  {
    forall i, j :: 0 <= i < j < |slots| ==> slots[i].key != slots[j].key
  }

  /** Every slot of a step lies in the cursor's block of the smaller table. */
  lemma VisitsInBlock(s: Keyspace, h: Hasher, cursor: Word, slot: Slot)
    requires Placed(s, h) && slot in Visits(s, cursor)
    ensures Block(slot.hash, Bits(s)) == Block(cursor, Bits(s))
  {
    hide Cursors.Position, Cursors.Block, Carried, Cursors.ReverseIncrement, Cursors.BucketIndex, Words.Log2,
         Words.PowerOfTwo, Tables.BucketOk, BucketAt, Words.Pow2;
    Sizes(s, h);
    if slot in BucketAt(s.base, cursor) {
      BucketPlaces(s.base, h, cursor, slot);
      SameBucketSameBlock(slot.hash, cursor, Bits(s));
    } else {
      LoopInBlock(s.next.value, h, cursor, slot, Bits(s));
    }
  }

  lemma LoopInBlock(t: Table, h: Hasher, cursor: Word, slot: Slot, k: nat)
    requires k < WIDTH && TableOk(t, h) && |t| == Pow2(k + 1)
    requires var v := ReverseIncrement(cursor, |t| - 1);
             slot in BucketAt(t, cursor) || (!Carried(v, Pow2(k), |t|) && slot in BucketAt(t, v))
    ensures Block(slot.hash, k) == Block(cursor, k)
  {
    hide Cursors.Position, Cursors.Block, Carried, Cursors.ReverseIncrement, Cursors.BucketIndex, Tables.TableOk,
         BucketAt, Words.Pow2, Cursors.BlockStart;
    var v := ReverseIncrement(cursor, |t| - 1);
    BlockSplits(slot.hash, k);
    BlockSplits(cursor, k);
    HalfStep(cursor, k);
    Pow2IsEven(k);
    if slot in BucketAt(t, cursor) {
      BucketPlaces(t, h, cursor, slot);
      SameBucketSameBlock(slot.hash, cursor, k + 1);
    } else {
      BucketPlaces(t, h, v, slot);
      SameBucketSameBlock(slot.hash, v, k + 1);
    }
  }

  lemma BucketPlaces(t: Table, h: Hasher, cursor: Word, slot: Slot)
    requires TableOk(t, h) && slot in BucketAt(t, cursor)
    ensures BucketIndex(slot.hash, |t|) == BucketIndex(cursor, |t|)
  {
    hide Words.Log2, Words.PowerOfTwo, Cursors.BucketIndex;
    var i := BucketIndex(cursor, |t|);
    assert BucketOk(t[i], i, |t|, h);
  }

  lemma VisitsDistinct(s: Keyspace, h: Hasher, cursor: Word)
    requires Placed(s, h)
    ensures DistinctKeys(Visits(s, cursor))
  {
    hide Cursors.Position, Cursors.Block, Carried, Cursors.ReverseIncrement, Cursors.BucketIndex, Words.Log2,
         Words.PowerOfTwo, Tables.Find;
    BucketDistinct(s.base, h, cursor);
    if s.next.Some? {
      var next := s.next.value;
      var v := ReverseIncrement(cursor, |next| - 1);
      BucketDistinct(next, h, cursor);
      BucketDistinct(next, h, v);
      DisjointBuckets(s, h, cursor, cursor);
      DistinctJoin(BucketAt(s.base, cursor), BucketAt(next, cursor));
      if !Carried(v, |s.base|, |next|) {
        Sizes(s, h);
        LoopBucketsDiffer(next, h, cursor, Bits(s));
        DisjointBuckets(s, h, cursor, v);
        DistinctJoin(BucketAt(s.base, cursor) + BucketAt(next, cursor), BucketAt(next, v));
      }
    }
  }

  lemma BucketDistinct(t: Table, h: Hasher, cursor: Word)
    requires TableOk(t, h)
    ensures DistinctKeys(BucketAt(t, cursor))
  {
    hide Words.Log2, Words.PowerOfTwo, Cursors.BucketIndex;
    var i := BucketIndex(cursor, |t|);
    assert BucketOk(t[i], i, |t|, h);
  }

  /** No key of a bucket of one table is in a bucket of the other. */
  lemma DisjointBuckets(s: Keyspace, h: Hasher, cursor: Word, v: Word)
    requires Placed(s, h) && s.next.Some?
    ensures forall a, b :: a in BucketAt(s.base, cursor) && b in BucketAt(s.next.value, v) ==> a.key != b.key
  {
    hide Words.Log2, Words.PowerOfTwo, Cursors.BucketIndex, Tables.Find;
    forall a, b | a in BucketAt(s.base, cursor) && b in BucketAt(s.next.value, v) ensures a.key != b.key {
      BucketIsStored(s.base, h, cursor, a);
      BucketIsStored(s.next.value, h, v, b);
      assert Find(s.base, h(a.key), a.key).None? || Find(s.next.value, h(a.key), a.key).None?;
    }
  }

  lemma LoopBucketsDiffer(next: Table, h: Hasher, cursor: Word, k: nat)
    requires k < WIDTH && TableOk(next, h) && |next| == Pow2(k + 1)
    requires !Carried(ReverseIncrement(cursor, |next| - 1), Pow2(k), |next|)
    ensures var v := ReverseIncrement(cursor, |next| - 1);
            forall a, b :: a in BucketAt(next, cursor) && b in BucketAt(next, v) ==> a.key != b.key
  {
    hide Cursors.Position, Cursors.Block, Carried, Cursors.ReverseIncrement, Cursors.BucketIndex, Words.Log2,
         Words.PowerOfTwo, Tables.Find;
    var v := ReverseIncrement(cursor, |next| - 1);
    HalfStep(cursor, k);
    SameBucketSameBlock(cursor, v, k + 1);
    forall a, b | a in BucketAt(next, cursor) && b in BucketAt(next, v) ensures a.key != b.key {
      BucketIsStored(next, h, cursor, a);
      BucketIsStored(next, h, v, b);
      BucketPlaces(next, h, cursor, a);
      BucketPlaces(next, h, v, b);
    }
  }

  lemma DistinctJoin(a: seq<Slot>, b: seq<Slot>)
    requires DistinctKeys(a) && DistinctKeys(b)
    requires forall x, y :: x in a && y in b ==> x.key != y.key
    ensures DistinctKeys(a + b)
  {
    var c := a + b;
    forall i, j | 0 <= i < j < |c| ensures c[i].key != c[j].key {
      if i < |a| <= j {
        assert a[i] in a && b[j - |a|] in b;
      }
    }
  }

  /** A run only moves forward. */
  lemma {:induction false} WalkMovesForward(s: Keyspace, h: Hasher, cursor: Word, budget: nat, slot: Slot)
    requires Placed(s, h) && slot in Walk(s, cursor, budget).slots
    ensures Block(cursor, Bits(s)) <= Block(slot.hash, Bits(s))
    decreases budget
  {
    hide Cursors.Position, Visits, NextCursor, Keyspaces.Placed, Cursors.Block;
    if slot in Visits(s, cursor) {
      VisitsInBlock(s, h, cursor, slot);
    } else {
      StepLeavesItsBlock(s, h, cursor);
      WalkMovesForward(s, h, NextCursor(s, cursor), budget - 1, slot);
    }
  }

  lemma StepLeavesItsBlock(s: Keyspace, h: Hasher, cursor: Word)
    requires Placed(s, h) && NextCursor(s, cursor) != 0
    ensures Bits(s) <= WIDTH
    ensures Block(NextCursor(s, cursor), Bits(s)) == Block(cursor, Bits(s)) + 1
  {
    hide Cursors.Position, Visits, Keyspaces.Placed, Cursors.Block, Cursors.BlockStart, Words.Pow2;
    StepReachesBlockEnd(s, h, cursor);
    BlockOfStart(NextCursor(s, cursor), Block(cursor, Bits(s)) + 1, Bits(s));
  }

  /** Over an unchanging keyspace a bounded run hands out no key twice. */
  lemma {:induction false} WalkDistinct(s: Keyspace, h: Hasher, cursor: Word, budget: nat)
    requires Placed(s, h)
    ensures DistinctKeys(Walk(s, cursor, budget).slots)
    decreases budget
  {
    hide Cursors.Position, Visits, NextCursor, Keyspaces.Placed, Cursors.Block, DistinctKeys;
    if budget == 0 {
      NothingDistinct();
    } else {
      var next := NextCursor(s, cursor);
      VisitsDistinct(s, h, cursor);
      if next != 0 {
        WalkDistinct(s, h, next, budget - 1);
        StepLeavesItsBlock(s, h, cursor);
        var rest := Walk(s, next, budget - 1).slots;
        forall a, b | a in Visits(s, cursor) && b in rest ensures a.key != b.key {
          VisitsInBlock(s, h, cursor, a);
          VisitsAreStored(s, h, cursor, a);
          WalkMovesForward(s, h, next, budget - 1, b);
          WalkIsStored(s, h, next, budget - 1, b);
        }
        DistinctJoin(Visits(s, cursor), rest);
      }
    }
  }

  lemma NothingDistinct()
    ensures DistinctKeys([])
  {
  }

  // ---------- A lap ----------

  /** Where `n` steps lead, going round past the end of a cycle. */
  function LapCursor(s: Keyspace, cursor: Word, n: nat): Word
    requires Shape(s)
    decreases n
  {
    if n == 0 then cursor else LapCursor(s, NextCursor(s, cursor), n - 1)
  }

  /** What `n` steps visit, going round past the end of a cycle. */
  function LapVisits(s: Keyspace, cursor: Word, n: nat): seq<Slot>
    requires Shape(s)
    decreases n
  {
    if n == 0 then [] else Visits(s, cursor) + LapVisits(s, NextCursor(s, cursor), n - 1)
  }

  lemma {:induction false} LapSplits(s: Keyspace, cursor: Word, n: nat)
    requires Shape(s)
    ensures LapCursor(s, cursor, n + 1) == NextCursor(s, LapCursor(s, cursor, n))
    ensures LapVisits(s, cursor, n + 1) == LapVisits(s, cursor, n) + Visits(s, LapCursor(s, cursor, n))
    decreases n
  {
    hide NextCursor, Visits;
    if n == 0 {
      assert LapVisits(s, NextCursor(s, cursor), 0) == [];
    } else {
      LapSplits(s, NextCursor(s, cursor), n - 1);
    }
  }

  /** How many blocks on from `q` block `r` lies, going round. */
  function Distance(q: nat, r: nat, blocks: nat): int
  {
    if q <= r then r - q else r + blocks - q
  }

  /** After `n` steps every stored key fewer than `n` blocks ahead has been visited, except,
      in the cursor's own block, those behind it. */
  lemma {:induction false} LapReaches(s: Keyspace, h: Hasher, cursor: Word, n: nat, key: Key)
    requires Placed(s, h) && s.len != 0 && Get(s, h, key).Some?
    requires Bits(s) <= WIDTH
    requires var d := Distance(Block(cursor, Bits(s)), Block(h(key), Bits(s)), Pow2(Bits(s)));
             d < n && (d == 0 ==> Position(cursor) <= Position(h(key)))
    ensures Slot(h(key), key, Get(s, h, key).value) in LapVisits(s, cursor, n)
    decreases n
  {
    hide Cursors.Position, Visits, NextCursor, Keyspaces.Placed, Cursors.Block, Keyspaces.Get, Cursors.BlockStart, Bits,
         Words.Pow2;
    var k, q, r := Bits(s), Block(cursor, Bits(s)), Block(h(key), Bits(s));
    var next := NextCursor(s, cursor);
    StepReachesBlockEnd(s, h, cursor);
    BlockIsReversedBucket(h(key), k);
    BlockBounds(h(key), k);
    if q == r {
      EndOfBlock(cursor, h(key), k);
      StepCovers(s, h, cursor, key);
    } else {
      StartOfNext(next, q, k);
      LapReaches(s, h, next, n - 1, key);
    }
  }

  lemma EndOfBlock(cursor: Word, w: Word, k: nat)
    requires k <= WIDTH && Block(w, k) == Block(cursor, k)
    ensures Position(w) < BlockStart(Block(cursor, k) + 1, k)
  {
    BlockBounds(w, k);
  }

  lemma StartOfNext(next: Word, q: nat, k: nat)
    requires k <= WIDTH && q < Pow2(k)
    requires Position(next) == if q + 1 == Pow2(k) then 0 else BlockStart(q + 1, k)
    ensures Block(next, k) == if q + 1 == Pow2(k) then 0 else q + 1
    ensures forall w: Word :: Block(w, k) == Block(next, k) ==> Position(next) <= Position(w)
  {
    hide Cursors.Position, Cursors.Block, Words.Pow2, Words.Shl;
    var q' := if q + 1 == Pow2(k) then 0 else q + 1;
    ShlZero(WIDTH - k);
    BlockOfStart(next, q', k);
    forall w: Word | Block(w, k) == Block(next, k) ensures Position(next) <= Position(w) {
      BlockBounds(w, k);
    }
  }

  /** The bound a sampling walk goes to. */
  function LapBound(s: Keyspace): nat
  {
    |s.base| + (if s.next.Some? then |s.next.value| else 0)
  }

  /** From any cursor, aligned or not, with one table or two, a lap of as many steps as there
      are buckets visits every stored key. */
  lemma LapVisitsEverything(s: Keyspace, h: Hasher, cursor: Word, key: Key)
    requires Placed(s, h) && s.len != 0 && Get(s, h, key).Some?
    ensures Slot(h(key), key, Get(s, h, key).value) in LapVisits(s, cursor, LapBound(s))
  {
    hide Cursors.Position, Cursors.Block, Keyspaces.Get, Cursors.BlockStart, Bits, Words.Pow2, Visits, NextCursor,
         Keyspaces.Placed;
    var k, n := Bits(s), LapBound(s);
    Sizes(s, h);
    var q, r := Block(cursor, k), Block(h(key), k);
    StepReachesBlockEnd(s, h, cursor);
    BlockIsReversedBucket(h(key), k);
    if q != r || Position(cursor) <= Position(h(key)) {
      LapReaches(s, h, cursor, n, key);
    } else if s.next.None? {
      WholeBucket(s, h, cursor, key);
    } else {
      var next := NextCursor(s, cursor);
      StartOfNext(next, q, k);
      LapReaches(s, h, next, n - 1, key);
    }
  }

  /** With one table a step visits the whole bucket, behind the cursor too. */
  lemma WholeBucket(s: Keyspace, h: Hasher, cursor: Word, key: Key)
    requires Placed(s, h) && s.len != 0 && s.next.None? && Get(s, h, key).Some?
    requires Bits(s) <= WIDTH && Block(cursor, Bits(s)) == Block(h(key), Bits(s))
    ensures Slot(h(key), key, Get(s, h, key).value) in Visits(s, cursor)
  {
    hide Cursors.Block, Cursors.BucketIndex, Words.Log2, Words.PowerOfTwo;
    Sizes(s, h);
    SameBucketSameBlock(cursor, h(key), Bits(s));
  }

  lemma {:induction false} LapIsStored(s: Keyspace, h: Hasher, cursor: Word, n: nat, slot: Slot)
    requires Placed(s, h) && slot in LapVisits(s, cursor, n)
    ensures slot.hash == h(slot.key) && Get(s, h, slot.key) == Some(slot.entry)
    decreases n
  {
    hide Visits, NextCursor, Keyspaces.Placed, Keyspaces.Get;
    if slot in Visits(s, cursor) {
      VisitsAreStored(s, h, cursor, slot);
    } else {
      LapIsStored(s, h, NextCursor(s, cursor), n - 1, slot);
    }
  }
}
