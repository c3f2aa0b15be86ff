/**
 A `SCAN` call on its way from shard to shard, and the cursor a client carries from one call to the
 next: the shard in the high 16 bits, the shard's own cursor in the low 48.
 */
module Crossings {
  import opened Basics
  import opened Words
  import opened Tables

  const CURSOR_INTERNAL_BITS: nat := 48
  const SHARD_BITS: nat := 16
  const SHARD_LIMIT: nat := 0x1_0000
  const WALK_STEP_BUCKETS: nat := 1024

  function InternalMask(): nat
  {
    Pow2(CURSOR_INTERNAL_BITS) - 1
  }

  function Pack(shard: nat, internal: Word): Word
    requires shard < SHARD_LIMIT
  {
    PackJoins(shard, internal);
    BitOr(Shl(shard, CURSOR_INTERNAL_BITS), BitAnd(internal, InternalMask(), WIDTH), WIDTH)
  }

  /** The shard and the shard's own cursor that a cursor holds. */
  function Unpack(cursor: Word): (nat, Word)
  {
    MaskedFits(cursor);
    (High(cursor, CURSOR_INTERNAL_BITS), BitAnd(cursor, InternalMask(), WIDTH))
  }

  lemma MaskedFits(x: Word)
    ensures BitAnd(x, InternalMask(), WIDTH) < MODULUS
  {
    hide Words.Pow2, Words.BitAnd;
    WordModulus();
    Pow2Monotone(CURSOR_INTERNAL_BITS, WIDTH);
  }

  lemma {:induction false} OrZero(x: nat, n: nat)
    requires x < Pow2(n)
    ensures BitOr(x, 0, n) == x
  {
    if n > 0 {
      OrZero(x / 2, n - 1);
    }
  }

  /** Parts that share no bit are joined by adding. */
  lemma {:induction false} OrJoins(q: nat, r: nat, k: nat, j: nat)
    requires q < Pow2(j) && r < Pow2(k)
    ensures BitOr(Shl(q, k), r, k + j) == Shl(q, k) + r
  {
    if k == 0 {
      OrZero(q, j);
    } else {
      ShlHalf(q, k);
      OrJoins(q, r / 2, k - 1, j);
    }
  }

  lemma ShardLimit()
    ensures Pow2(SHARD_BITS) == SHARD_LIMIT
  {
    hide Words.Pow2;
    Sixteen();
    Pow2Sum(4, 4);
    Pow2Sum(8, 8);
  }

  lemma JoinFits(q: nat, r: nat, k: nat, j: nat)
    requires q < Pow2(j) && r < Pow2(k)
    ensures Shl(q, k) + r < Pow2(k + j)
  {
    ShlMonotone(q, Pow2(j), k);
    ShlPow2(j, k);
  }

  lemma PackJoins(shard: nat, internal: Word)
    requires shard < SHARD_LIMIT
    ensures var c := BitOr(Shl(shard, CURSOR_INTERNAL_BITS), BitAnd(internal, InternalMask(), WIDTH), WIDTH);
            c < MODULUS && c == Shl(shard, CURSOR_INTERNAL_BITS) + Low(internal, CURSOR_INTERNAL_BITS)
  {
    hide Words.Pow2, Words.BitOr, Words.BitAnd, Words.Shl, Words.Low;
    var low := Low(internal, CURSOR_INTERNAL_BITS);
    ShardLimit();
    WordModulus();
    AndMask(internal, CURSOR_INTERNAL_BITS, WIDTH);
    OrJoins(shard, low, CURSOR_INTERNAL_BITS, SHARD_BITS);
    JoinFits(shard, low, CURSOR_INTERNAL_BITS, SHARD_BITS);
  }

  /** The round trip: packing loses nothing of a shard cursor that stays within 48 bits, and
      that is exactly when it loses nothing. */
  lemma UnpackPack(shard: nat, internal: Word)
    requires shard < SHARD_LIMIT
    ensures Unpack(Pack(shard, internal)).0 == shard
    ensures Unpack(Pack(shard, internal)).1 == internal <==> internal < Pow2(CURSOR_INTERNAL_BITS)
  {
    hide Words.Pow2, Words.BitOr, Words.BitAnd, Words.Shl, Words.Low, Words.High;
    var low := Low(internal, CURSOR_INTERNAL_BITS);
    PackJoins(shard, internal);
    JoinWord(shard, low, CURSOR_INTERNAL_BITS);
    AndMask(Pack(shard, internal), CURSOR_INTERNAL_BITS, WIDTH);
    if internal < Pow2(CURSOR_INTERNAL_BITS) {
      LowOfSmall(internal, CURSOR_INTERNAL_BITS);
    }
  }

  /** Every cursor a client can send is some shard and some shard cursor, and packs back. */
  lemma PackUnpack(cursor: Word)
    ensures Unpack(cursor).0 < SHARD_LIMIT && Unpack(cursor).1 < Pow2(CURSOR_INTERNAL_BITS)
    ensures Pack(Unpack(cursor).0, Unpack(cursor).1) == cursor
  {
    hide Words.Pow2, Words.BitOr, Words.BitAnd, Words.Shl, Words.Low, Words.High;
    var (shard, internal) := Unpack(cursor);
    AndMask(cursor, CURSOR_INTERNAL_BITS, WIDTH);
    WordModulus();
    ShardLimit();
    HighSmall(cursor, WIDTH, CURSOR_INTERNAL_BITS);
    PackJoins(shard, internal);
    LowOfSmall(internal, CURSOR_INTERNAL_BITS);
    SplitWord(cursor, CURSOR_INTERNAL_BITS);
  }

  /** The shard is in the high 16 bits and its cursor in the low 48. */
  lemma PackIs(shard: nat, internal: Word)
    requires shard < 65536 && internal < 281_474_976_710_656
    ensures Pack(shard, internal) == shard * 281_474_976_710_656 + internal
    ensures Unpack(shard * 281_474_976_710_656 + internal) == (shard, internal)
  {
    hide Words.Pow2, Words.BitOr, Words.BitAnd, Words.Shl, Words.Low, Words.High, Unpack;
    FortyEight();
    UnpackPack(shard, internal);
    PackJoins(shard, internal);
    LowOfSmall(internal, CURSOR_INTERNAL_BITS);
    ShlIsTimes(shard, CURSOR_INTERNAL_BITS);
  }

  lemma FortyEight()
    ensures Pow2(CURSOR_INTERNAL_BITS) == 281_474_976_710_656
  {
    hide Words.Pow2;
    Sixteen();
    Pow2Sum(4, 4);
    Pow2Sum(8, 8);
    Pow2Sum(16, 16);
    Pow2Sum(32, 16);
  }

  lemma TwiceTimes(x: nat, p: nat)
    ensures x * (2 * p) == 2 * (x * p)
  {
  }

  lemma {:induction false} ShlIsTimes(x: nat, k: nat)
    ensures Shl(x, k) == x * Pow2(k)
  {
    if k > 0 {
      ShlIsTimes(x, k - 1);
      TwiceTimes(x, Pow2(k - 1));
    }
  }

  /** The cursor that starts a walk names the start of the first shard, and no other place does. */
  lemma ZeroIsTheStart(shard: nat, internal: Word)
    requires shard < SHARD_LIMIT && internal < Pow2(CURSOR_INTERNAL_BITS)
    ensures Unpack(0) == (0, 0)
    ensures Pack(shard, internal) == 0 <==> shard == 0 && internal == 0
  {
    hide Words.Pow2, Words.BitOr, Words.BitAnd, Words.Shl, Words.Low, Words.High;
    UnpackPack(0, 0);
    UnpackPack(shard, internal);
    PackJoins(0, 0);
    ShlZero(CURSOR_INTERNAL_BITS);
    LowOfSmall(0, CURSOR_INTERNAL_BITS);
  }

  // ---------- A call ----------

  datatype StepRequest = StepRequest(shard: nat, cursor: Word, count: nat)

  /** A call in progress, as a value. */
  datatype Call = Call(
    shards: nat,
    shard: nat,
    internal: Word,
    keyTarget: nat,
    bucketsLeft: nat,
    keys: seq<Key>,
    finished: bool)

  predicate WantsStep(c: Call)
    ensures WantsStep(c) ==> !c.finished && c.bucketsLeft > 0
  {
    !(c.finished || |c.keys| >= c.keyTarget || c.bucketsLeft == 0)
  }

  /** A call after a shard's answer: the keys are gathered, the visit is charged, and a spent
      shard hands over to the next one. */
  function Fed(c: Call, next: Word, keys: seq<Key>, visited: nat): Call
  {
    var charge := AtLeastOne(visited);
    var c' := c.(keys := c.keys + keys, bucketsLeft := if c.bucketsLeft <= charge then 0 else c.bucketsLeft - charge);
    if next != 0 then c'.(internal := next)
    else if c.shard + 1 < c.shards then c'.(shard := c.shard + 1, internal := 0)
    else c'.(finished := true)
  }

  /** The cursor a call answers. */
  function Resume(c: Call): Word
    requires c.shard < SHARD_LIMIT
  {
    if c.finished then 0 else Pack(c.shard, c.internal)
  }

  /** Every call in progress: it addresses a shard there is, at a cursor that packs, and it is
      either at its first step or past the start of the walk. */
  predicate CallOk(c: Call)
    ensures CallOk(c) ==> c.shard < c.shards < SHARD_LIMIT && c.internal < Pow2(CURSOR_INTERNAL_BITS)
  {
    && c.shard < c.shards < SHARD_LIMIT && c.internal < Pow2(CURSOR_INTERNAL_BITS) && c.keyTarget >= 1
    && (c.finished ==> c.shard + 1 == c.shards)
    && (|| (c.keys == [] && c.bucketsLeft >= 1 && !c.finished)
        || c.finished || c.shard > 0 || c.internal != 0)
  }

  class Crossing {
    const shards: nat
    var shard: nat
    var internal: Word
    const keyTarget: nat
    var bucketsLeft: nat
    var keys: seq<Key>
    var finished: bool

    ghost function State(): Call
      reads this
    {
      Call(shards, shard, internal, keyTarget, bucketsLeft, keys, finished)
    }

    ghost predicate Valid()
      reads this
    {
      CallOk(State())
    }

    constructor (shards: nat, cursor: Word, keyTarget: nat, bucketCeiling: nat)
      requires Unpack(cursor).0 < shards < SHARD_LIMIT
      ensures Valid() && State() == Begun(shards, cursor, keyTarget, bucketCeiling)
    {
      hide Words.Pow2, Unpack;
      PackUnpack(cursor);
      this.shards := shards;
      shard, internal := Unpack(cursor).0, Unpack(cursor).1;
      this.keyTarget := AtLeastOne(keyTarget);
      bucketsLeft := AtLeastOne(bucketCeiling);
      keys, finished := [], false;
    }

    /** A cursor that names a shard there is not is refused, and no other; otherwise the call
        resumes exactly where the cursor points, and stopped at once would answer that cursor. */
    static method Begin(shards: nat, cursor: Word, keyTarget: nat, bucketCeiling: nat) returns (r: Option<Crossing>)
      requires shards < SHARD_LIMIT
      ensures r.None? <==> Unpack(cursor).0 >= shards
      ensures r.Some? ==> fresh(r.value) && r.value.Valid()
      ensures r.Some? ==> r.value.State() == Begun(shards, cursor, keyTarget, bucketCeiling)
      ensures r.Some? ==> Resume(r.value.State()) == cursor
    {
      hide Words.Pow2, Pack, Unpack;
      PackUnpack(cursor);
      if Unpack(cursor).0 >= shards {
        return None;
      }
      var crossing := new Crossing(shards, cursor, keyTarget, bucketCeiling);
      return Some(crossing);
    }

    /** The next envelope, if one is wanted: for a shard there is, with some budget, from exactly
        where the call would resume. A call that wants none and is not at its end has moved on from
        the start of the walk. */
    method Wants() returns (step: Option<StepRequest>)
      requires Valid()
      ensures step.Some? <==> WantsStep(State())
      ensures step.Some? <==> !finished && |keys| < keyTarget && bucketsLeft > 0
      ensures step.Some? ==>
                && step.value.shard < shards && step.value.count == bucketsLeft > 0
                && (shard, internal) == (step.value.shard, step.value.cursor) == Unpack(Resume(State()))
      ensures step.None? ==> (Resume(State()) == 0 <==> finished)
    {
      hide Words.Pow2, Pack, Unpack;
      UnpackPack(shard, internal);
      if finished || |keys| >= keyTarget || bucketsLeft == 0 {
        ZeroMeansSpent(State());
        return None;
      }
      return Some(StepRequest(shard, internal, bucketsLeft));
    }

    /** The call only moves on, charges at least one bucket, and is finished by the last shard's
        answer of zero and nothing else. */
    method Feed(next: Word, found: seq<Key>, visited: nat)
      modifies this
      ensures State() == Fed(old(State()), next, found, visited)
      ensures old(Valid()) && next < Pow2(CURSOR_INTERNAL_BITS) && !old(finished) ==> Valid()
      ensures old(bucketsLeft) > 0 ==> bucketsLeft < old(bucketsLeft)
      ensures shard >= old(shard)
      ensures finished <==> old(finished) || (next == 0 && old(shard) + 1 >= shards)
    {
      hide Words.Pow2;
      keys := keys + found;
      bucketsLeft := if bucketsLeft <= AtLeastOne(visited) then 0 else bucketsLeft - AtLeastOne(visited);
      if next != 0 {
        internal := next;
        return;
      }
      var nextShard := shard + 1;
      if nextShard < shards {
        shard, internal := nextShard, 0;
      } else {
        finished := true;
      }
    }

    /** The answer: of a call that is over, zero only when the last shard is spent, and any other
        answer resumes exactly where the call stopped. */
    method Finish() returns (cursor: Word, gathered: seq<Key>)
      requires shard < SHARD_LIMIT
      ensures cursor == Resume(State()) && gathered == keys
      ensures Valid() && !WantsStep(State()) ==> (cursor == 0 <==> finished)
      ensures Valid() && cursor != 0 ==> Unpack(cursor) == (shard, internal)
    {
      hide Words.Pow2, Pack, Unpack;
      if Valid() {
        UnpackPack(shard, internal);
        if !WantsStep(State()) {
          ZeroMeansSpent(State());
        }
      }
      cursor, gathered := if finished then 0 else Pack(shard, internal), keys;
    }
  }

  /** A call as it begins. */
  function Begun(shards: nat, cursor: Word, keyTarget: nat, bucketCeiling: nat): Call
  {
    Call(shards, Unpack(cursor).0, Unpack(cursor).1, AtLeastOne(keyTarget), AtLeastOne(bucketCeiling), [], false)
  }

  lemma BegunOk(shards: nat, cursor: Word, keyTarget: nat, bucketCeiling: nat)
    requires Unpack(cursor).0 < shards < SHARD_LIMIT
    ensures CallOk(Begun(shards, cursor, keyTarget, bucketCeiling))
  {
    PackUnpack(cursor);
  }

  lemma FedOk(c: Call, next: Word, keys: seq<Key>, visited: nat)
    requires CallOk(c) && !c.finished && next < Pow2(CURSOR_INTERNAL_BITS)
    ensures CallOk(Fed(c, next, keys, visited))
  {
    hide Words.Pow2;
  }

  /** A call that is over answers zero exactly when the last shard is spent. */
  lemma ZeroMeansSpent(c: Call)
    requires CallOk(c) && !WantsStep(c)
    ensures Resume(c) == 0 <==> c.finished
    ensures !c.finished ==> Unpack(Resume(c)) == (c.shard, c.internal)
  {
    hide Words.Pow2, Pack, Unpack;
    if !c.finished {
      ZeroIsTheStart(c.shard, c.internal);
      UnpackPack(c.shard, c.internal);
    }
  }
}
