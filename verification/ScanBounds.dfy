/**
 How many envelopes a client's walk takes while the shards change under it: short of a clear, no
 more than the shards have buckets when it ends.
 */
module ScanBounds {
  import opened Basics
  import opened Words
  import opened Cursors
  import opened Tables
  import opened Keyspaces
  import opened Scans
  import opened Walks
  import Runs
  import opened ShardScans
  import opened Crossings
  import opened ScanClients

  function Envelopes(run: seq<Event>): nat
  {
    if run == [] then 0 else (if run[0].Envelope? then 1 else 0) + Envelopes(run[1..])
  }

  predicate NoClear(run: seq<Event>)
  {
    forall i :: 0 <= i < |run| && run[i].Change? ==> !run[i].op.OpClear?
  }

  /** The buckets of the shards from the `j`-th on. */
  function BucketsFrom(shards: seq<Shard>, j: nat): nat
    decreases |shards| - j
  {
    if j >= |shards| then 0 else |shards[j].keys.base| + BucketsFrom(shards, j + 1)
  }

  /** No shard has more buckets than it ends with. */
  ghost predicate Grown(shards: seq<Shard>, final: seq<Shard>)
  {
    |shards| == |final| && forall j :: 0 <= j < |shards| ==> Bits(shards[j].keys) <= Bits(final[j].keys)
  }

  /** Buckets of the final tables from a place to the end of the walk. */
  ghost function FromPlace(final: seq<Shard>, shard: nat, internal: Word): int
    requires ShardsOk(final) && shard < |final|
  {
    FitsWidth(final, shard);
    |final[shard].keys.base| - Block(internal, Bits(final[shard].keys)) + BucketsFrom(final, shard + 1)
  }

  lemma FitsWidth(final: seq<Shard>, shard: nat)
    requires ShardsOk(final) && shard < |final|
    ensures Bits(final[shard].keys) <= WIDTH
  {
    hide Keyspaces.Placed, Bits, Words.Pow2;
    Sizes(final[shard].keys, final[shard].hash);
  }

  ghost function ToGo(w: World, final: seq<Shard>): int
    requires WorldOk(w) && ShardsOk(final) && |final| == |w.shards|
  {
    if w.client.Finished? || (w.client.Calling? && w.client.call.finished) then 0
    else FromPlace(final, Place(w.client).0, Place(w.client).1)
  }

  lemma {:induction false} WalkLeavesBlocks(s: Keyspace, h: Hasher, cursor: Word, budget: nat, k: nat)
    requires Placed(s, h) && budget > 0 && Bits(s) <= k <= WIDTH
    ensures var end := Walk(s, cursor, budget).cursor; end != 0 ==> Block(cursor, k) < Block(end, k)
    decreases budget
  {
    hide Visits, NextCursor, Keyspaces.Placed, Cursors.Block, Bits;
    var next := NextCursor(s, cursor);
    if next != 0 {
      Runs.NonZeroNotEmpty(s, cursor);
      Runs.StepLeavesBlock(s, h, cursor, k);
      if budget > 1 {
        WalkLeavesBlocks(s, h, next, budget - 1, k);
      }
    }
  }

  /** A place lies short of the end of its shard. */
  lemma PlaceHasSome(final: seq<Shard>, shard: nat, internal: Word)
    requires ShardsOk(final) && shard < |final|
    ensures Bits(final[shard].keys) <= WIDTH
    ensures FromPlace(final, shard, internal) > BucketsFrom(final, shard + 1)
    ensures FromPlace(final, shard, 0) == BucketsFrom(final, shard)
  {
    hide Cursors.Block, Words.Pow2, Keyspaces.Placed, Bits;
    var s, h := final[shard].keys, final[shard].hash;
    Sizes(s, h);
    BlockIsReversedBucket(internal, Bits(s));
    ZeroBlock(Bits(s));
  }

  lemma ZeroBlock(k: nat)
    requires k <= WIDTH
    ensures Block(0, k) == 0
  {
    hide Words.Pow2, Words.Reverse;
    BlockIsReversedBucket(0, k);
    LowOfSmall(0, k);
    ReverseZero(k);
  }

  /** An envelope goes past at least one bucket of the final tables. */
  lemma EnvelopeSpends(shards: seq<Shard>, c: Call, f: Filter, final: seq<Shard>)
    requires ShardsOk(shards) && CallOk(c) && c.shards == |shards| && WantsStep(c)
    requires ShardsOk(final) && Grown(shards, final)
    ensures var c' := Answered(shards[c.shard].keys, c, f);
            && c'.shard < |final|
            && (if c'.finished then 0 else FromPlace(final, c'.shard, c'.internal))
             < FromPlace(final, c.shard, c.internal)
  {
    hide Walk, Passing, CallOk, Keyspaces.Placed, Keyspaces.Counted, Keyspaces.Loaded, Cursors.Position, Cursors.Block,
         Words.Pow2, Bits;
    var s, h := shards[c.shard].keys, shards[c.shard].hash;
    StepMovesOn(shards, c, f);
    PlaceHasSome(final, c.shard, c.internal);
    WalkLeavesBlocks(s, h, c.internal, AtLeastOne(c.bucketsLeft), Bits(final[c.shard].keys));
    if c.shard + 1 < |final| {
      PlaceHasSome(final, c.shard + 1, 0);
    }
  }

  lemma EventSpends(w: World, query: Query, e: Event, final: seq<Shard>)
    requires WorldOk(w) && Enabled(w, e) && ShardsOk(final) && |final| == |w.shards| && Grown(w.shards, final)
    ensures WorldOk(Do(w, query, e))
    ensures ToGo(Do(w, query, e), final) + (if e.Envelope? then 1 else 0) <= ToGo(w, final)
    ensures ToGo(w, final) >= 0
  {
    hide Keyspaces.Valid, CallOk, Pack, Unpack, Answered, Resume, FromPlace, Cursors.Position, Words.Pow2, ShardsOk,
         Grown, Runs.Apply;
    DoKeepsOk(w, query, e);
    if !w.client.Finished? {
      WalkNeverGoesBack(w, query, e);
      PlaceHasSome(final, Place(w.client).0, Place(w.client).1);
      if e.Envelope? {
        EnvelopeSpends(w.shards, w.client.call, Filter(query, e.now), final);
      }
    }
  }

  lemma {:induction false} RunGrows(w: World, query: Query, run: seq<Event>)
    requires WorldOk(w) && Possible(w, query, run) && NoClear(run)
    ensures WorldOk(After(w, query, run)) && Grown(w.shards, After(w, query, run).shards)
    decreases |run|
  {
    hide WorldOk, Enabled, Do, Bits;
    if run != [] {
      DoKeepsOk(w, query, run[0]);
      EventGrows(w, query, run[0]);
      assert NoClear(run[1..]);
      RunGrows(Do(w, query, run[0]), query, run[1..]);
    }
  }

  lemma EventGrows(w: World, query: Query, e: Event)
    requires WorldOk(w) && Enabled(w, e) && (e.Change? ==> !e.op.OpClear?)
    ensures Grown(w.shards, Do(w, query, e).shards)
  {
    hide Runs.Apply, Words.Log2, Keyspaces.Placed, CallOk, Unpack, Answered, Resume;
    if e.Change? {
      Runs.NeverShrinks(w.shards[e.shard].keys, w.shards[e.shard].hash, e.op);
    }
  }

  lemma {:induction false} RunSpends(w: World, query: Query, run: seq<Event>, final: seq<Shard>)
    requires WorldOk(w) && Possible(w, query, run) && NoClear(run) && ShardsOk(final)
    requires After(w, query, run).shards == final && |final| == |w.shards|
    ensures Envelopes(run) <= ToGo(w, final)
    decreases |run|
  {
    hide WorldOk, Enabled, Do, ToGo, Grown, ShardsOk;
    RunGrows(w, query, run);
    if run == [] {
      ToGoIsCount(w, final);
    } else {
      EventSpends(w, query, run[0], final);
      assert NoClear(run[1..]);
      RunSpends(Do(w, query, run[0]), query, run[1..], final);
    }
  }

  lemma ToGoIsCount(w: World, final: seq<Shard>)
    requires WorldOk(w) && ShardsOk(final) && |final| == |w.shards|
    ensures ToGo(w, final) >= 0
  {
    hide Keyspaces.Valid, CallOk, Unpack, FromPlace, ShardsOk;
    if !w.client.Finished? {
      PlaceHasSome(final, Place(w.client).0, Place(w.client).1);
    }
  }

  /** A walk begun at zero takes no more envelopes than the shards have buckets where it stands,
      whatever changed in between short of a clear, and however it sized its calls. */
  lemma WalkIsShort(w: World, query: Query, run: seq<Event>)
    requires WorldOk(w) && w.client == Idle(0) && Possible(w, query, run) && NoClear(run)
    ensures Envelopes(run) <= BucketsFrom(After(w, query, run).shards, 0)
  {
    hide WorldOk, Possible, After, NoClear, Envelopes, Keyspaces.Valid, Words.Pow2, Unpack;
    RunGrows(w, query, run);
    var final := After(w, query, run).shards;
    RunSpends(w, query, run, final);
    StartsAtZero();
    PlaceHasSome(final, 0, 0);
  }
}
