/**
 A client's whole walk over shards nobody changes: what has been handed over and what is still
 ahead always make up the same sequence of keys, so the walk ends having handed over exactly the
 keys that pass, each once.
 */
module QuietWalks {
  import opened Basics
  import opened Words
  import opened Cursors
  import opened Tables
  import opened Keyspaces
  import opened Scans
  import opened Walks
  import Runs
  import opened ShardScans
  import opened Crossings
  import opened ScanClients
  import Glob

  /** Everything a shard has from a cursor to the end of its cycle. */
  ghost function Cycle(s: Keyspace, h: Hasher, cursor: Word): seq<Slot>
    requires Placed(s, h)
    decreases MODULUS - Position(cursor)
  {
    WalkAdvances(s, h, cursor, 1);
    var next := NextCursor(s, cursor);
    Visits(s, cursor) + if next == 0 then [] else Cycle(s, h, next)
  }

  /** A bounded run takes a cycle's first part and leaves its rest. */
  lemma {:induction false} WalkSplitsCycle(s: Keyspace, h: Hasher, cursor: Word, budget: nat)
    requires Placed(s, h) && budget > 0
    ensures var w := Walk(s, cursor, budget);
            Cycle(s, h, cursor) == w.slots + if w.cursor == 0 then [] else Cycle(s, h, w.cursor)
    decreases budget
  {
    hide Visits, NextCursor, Keyspaces.Placed, Cursors.Position;
    var next := NextCursor(s, cursor);
    if next == 0 {
    } else if budget == 1 {
      assert Walk(s, next, 0).slots == [];
    } else {
      WalkSplitsCycle(s, h, next, budget - 1);
    }
  }

  /** A cycle is some bounded run that ends it. */
  lemma {:induction false} CycleIsWalk(s: Keyspace, h: Hasher, cursor: Word) returns (n: nat)
    requires Placed(s, h)
    ensures n > 0 && Walk(s, cursor, n).cursor == 0 && Walk(s, cursor, n).slots == Cycle(s, h, cursor)
    decreases MODULUS - Position(cursor)
  {
    hide Visits, NextCursor, Keyspaces.Placed, Cursors.Position;
    WalkAdvances(s, h, cursor, 1);
    var next := NextCursor(s, cursor);
    if next == 0 {
      n := 1;
    } else {
      n := CycleIsWalk(s, h, next);
      n := n + 1;
    }
  }

  /** A whole cycle has every stored key, nothing else, and none of them twice. */
  lemma CycleIsExact(s: Keyspace, h: Hasher)
    requires Valid(s, h)
    ensures DistinctKeys(Cycle(s, h, 0))
    ensures forall key :: Get(s, h, key).Some? ==> Slot(h(key), key, Get(s, h, key).value) in Cycle(s, h, 0)
    ensures forall slot :: slot in Cycle(s, h, 0) ==>
              slot.hash == h(slot.key) && Get(s, h, slot.key) == Some(slot.entry)
  {
    hide Keyspaces.Placed, Keyspaces.Counted, Keyspaces.Loaded, Keyspaces.Get, Cycle, Walk, Cursors.Position,
         DistinctKeys;
    var n := CycleIsWalk(s, h, 0);
    WalkDistinct(s, h, 0, n);
    PositionOfZero();
    forall key | Get(s, h, key).Some? ensures Slot(h(key), key, Get(s, h, key).value) in Cycle(s, h, 0) {
      Runs.PresentNotEmpty(s, h, key);
      WalkCovers(s, h, 0, n, key);
    }
    forall slot | slot in Cycle(s, h, 0) ensures slot.hash == h(slot.key) && Get(s, h, slot.key) == Some(slot.entry) {
      WalkIsStored(s, h, 0, n, slot);
    }
  }

  // ---------- What is ahead ----------

  /** The keys that pass, from a place in the walk to its end, shard after shard. */
  ghost function Ahead(shards: seq<Shard>, f: Filter, shard: nat, internal: Word): seq<Key>
    requires ShardsOk(shards) && shard < |shards|
    decreases |shards| - shard
  {
    Passing(f, Cycle(shards[shard].keys, shards[shard].hash, internal))
    + if shard + 1 < |shards| then Ahead(shards, f, shard + 1, 0) else []
  }

  ghost function StillAhead(w: World, f: Filter): seq<Key>
    requires WorldOk(w)
  {
    match w.client
    case Idle(cursor) => Ahead(w.shards, f, Unpack(cursor).0, Unpack(cursor).1)
    case Calling(call) =>
      call.keys + if call.finished then [] else Ahead(w.shards, f, call.shard, call.internal)
    case Finished => []
  }

  lemma EnvelopeKeepsTotal(shards: seq<Shard>, c: Call, f: Filter)
    requires ShardsOk(shards) && CallOk(c) && c.shards == |shards| && WantsStep(c)
    ensures var c' := Answered(shards[c.shard].keys, c, f);
            && CallOk(c')
            && c'.keys + (if c'.finished then [] else Ahead(shards, f, c'.shard, c'.internal))
            == c.keys + Ahead(shards, f, c.shard, c.internal)
  {
    hide Walk, Passing, Passes, CallOk, Keyspaces.Placed, Keyspaces.Counted, Keyspaces.Loaded, Cycle, Cursors.Position,
         Words.Pow2, Ahead;
    var s, h := shards[c.shard].keys, shards[c.shard].hash;
    var budget := AtLeastOne(c.bucketsLeft);
    var w := Walk(s, c.internal, budget);
    StepMovesOn(shards, c, f);
    WalkSplitsCycle(s, h, c.internal, budget);
    AheadIs(shards, f, c.shard, c.internal);
    var here := Passing(f, w.slots);
    if w.cursor == 0 {
      assert Cycle(s, h, c.internal) == w.slots;
      Regroup(c.keys, here, [], Later(shards, f, c.shard));
    } else {
      PassingJoins(f, w.slots, Cycle(s, h, w.cursor));
      AheadIs(shards, f, c.shard, w.cursor);
      Regroup(c.keys, here, Passing(f, Cycle(s, h, w.cursor)), Later(shards, f, c.shard));
    }
  }

  /** What the shards after one have. */
  ghost function Later(shards: seq<Shard>, f: Filter, shard: nat): seq<Key>
    requires ShardsOk(shards) && shard < |shards|
  {
    if shard + 1 < |shards| then Ahead(shards, f, shard + 1, 0) else []
  }

  lemma AheadIs(shards: seq<Shard>, f: Filter, shard: nat, internal: Word)
    requires ShardsOk(shards) && shard < |shards|
    ensures Ahead(shards, f, shard, internal)
         == Passing(f, Cycle(shards[shard].keys, shards[shard].hash, internal)) + Later(shards, f, shard)
  {
    hide Passing, Cycle;
  }

  lemma Regroup(a: seq<Key>, b: seq<Key>, c: seq<Key>, d: seq<Key>)
    ensures (a + b) + (c + d) == a + ((b + c) + d)
    ensures [] + d == d && b + [] == b
  {
  }

  /** Over shards nobody changes, read at one time, an event moves keys from what is ahead to
      what is handed over and neither adds nor loses one. */
  lemma QuietEventKeepsTotal(w: World, f: Filter, e: Event)
    requires WorldOk(w) && Enabled(w, e) && !e.Change? && (e.Envelope? ==> e.now == f.now)
    ensures WorldOk(Do(w, f.query, e))
    ensures var w' := Do(w, f.query, e);
            w'.shards == w.shards && w'.handed + StillAhead(w', f) == w.handed + StillAhead(w, f)
  {
    hide ShardsOk, CallOk, Pack, Unpack, Answered, Resume, Ahead, Cursors.Position, Words.Pow2;
    DoKeepsOk(w, f.query, e);
    match e {
      case Begin(keyTarget) =>
        assert [] + Ahead(w.shards, f, Unpack(w.client.cursor).0, Unpack(w.client.cursor).1)
            == Ahead(w.shards, f, Unpack(w.client.cursor).0, Unpack(w.client.cursor).1);
      case Envelope(now) =>
        assert Filter(f.query, now) == f;
        EnvelopeKeepsTotal(w.shards, w.client.call, f);
      case Return =>
        ZeroMeansSpent(w.client.call);
    }
  }

  ghost predicate Quiet(run: seq<Event>, now: Instant)
  {
    forall i :: 0 <= i < |run| ==> !run[i].Change? && (run[i].Envelope? ==> run[i].now == now)
  }

  lemma {:induction false} QuietRunKeepsTotal(w: World, f: Filter, run: seq<Event>)
    requires WorldOk(w) && Possible(w, f.query, run) && Quiet(run, f.now)
    ensures var w' := After(w, f.query, run);
            WorldOk(w') && w'.shards == w.shards && w'.handed + StillAhead(w', f) == w.handed + StillAhead(w, f)
    decreases |run|
  {
    hide WorldOk, Enabled, Do, StillAhead;
    if run != [] {
      QuietEventKeepsTotal(w, f, run[0]);
      assert Quiet(run[1..], f.now);
      QuietRunKeepsTotal(Do(w, f.query, run[0]), f, run[1..]);
    }
  }

  /** A whole walk over shards nobody changes hands over exactly the keys that pass, in shard
      and cycle order, however the client sized its calls. */
  lemma QuietWalkIsExact(w: World, f: Filter, run: seq<Event>)
    requires WorldOk(w) && w.client == Idle(0) && w.handed == []
    requires Possible(w, f.query, run) && Quiet(run, f.now) && After(w, f.query, run).client.Finished?
    ensures After(w, f.query, run).handed == Ahead(w.shards, f, 0, 0)
  {
    hide Possible, After, Quiet, Ahead, Unpack, Words.Pow2;
    QuietRunKeepsTotal(w, f, run);
    StartsAtZero();
    Regroup([], After(w, f.query, run).handed, [], Ahead(w.shards, f, 0, 0));
  }

  /** What a walk from the start has ahead: a key that passes in any shard, and no other. */
  lemma {:induction false} AheadIsExact(shards: seq<Shard>, f: Filter, shard: nat, key: Key)
    requires ShardsOk(shards) && shard < |shards|
    ensures key in Ahead(shards, f, shard, 0) <==>
              exists i :: shard <= i < |shards| && Kept(shards[i], f, key)
    decreases |shards| - shard
  {
    hide Keyspaces.Valid, Cycle, Passing;
    KeptInCycle(shards[shard], f, key);
    if shard + 1 < |shards| {
      AheadIsExact(shards, f, shard + 1, key);
    }
  }

  /** A shard has the key, and it is live and matches. */
  ghost predicate Kept(s: Shard, f: Filter, key: Key)
    requires Valid(s.keys, s.hash)
  {
    var found := Get(s.keys, s.hash, key);
    && found.Some? && !f.query.policy.dueOnRead(found.value.expiresAt, f.now)
    && (f.query.pattern.Some? ==> Glob.Accepts(Glob.Tokens(f.query.pattern.value), key))
  }

  lemma KeptInCycle(s: Shard, f: Filter, key: Key)
    requires Valid(s.keys, s.hash)
    ensures key in Passing(f, Cycle(s.keys, s.hash, 0)) <==> Kept(s, f, key)
  {
    hide Keyspaces.Valid, Keyspaces.Get, Cycle, Passing, Passes, Glob.Accepts, Glob.Tokens;
    CycleIsExact(s.keys, s.hash);
    if Kept(s, f, key) {
      var slot := Slot(s.hash(key), key, Get(s.keys, s.hash, key).value);
      PassesIff(f, slot);
      PassingHas(f, Cycle(s.keys, s.hash, 0), slot);
    }
    if key in Passing(f, Cycle(s.keys, s.hash, 0)) {
      var slot := PassingOnly(f, Cycle(s.keys, s.hash, 0), key);
      PassesIff(f, slot);
    }
  }

  // ---------- No key twice ----------

  ghost predicate NoRepeat(keys: seq<Key>)
  {
    forall i, j :: 0 <= i < j < |keys| ==> keys[i] != keys[j]
  }

  lemma {:induction false} PassingKeepsDistinct(f: Filter, slots: seq<Slot>)
    requires DistinctKeys(slots)
    ensures NoRepeat(Passing(f, slots))
  {
    hide Passes;
    if slots != [] {
      var n := |slots| - 1;
      PassingKeepsDistinct(f, slots[..n]);
      if slots[n].key in Passing(f, slots[..n]) {
        var slot := PassingOnly(f, slots[..n], slots[n].key);
      }
    }
  }

  /** A key lives in at most one shard. */
  ghost predicate OneShardEach(shards: seq<Shard>, f: Filter)
    requires ShardsOk(shards)
  {
    forall i, j, key: Key :: 0 <= i < j < |shards| && Kept(shards[i], f, key) ==> !Kept(shards[j], f, key)
  }

  /** With every key in one shard, a quiet walk hands over no key twice. */
  lemma {:induction false} AheadRepeatsNone(shards: seq<Shard>, f: Filter, shard: nat)
    requires ShardsOk(shards) && shard < |shards| && OneShardEach(shards, f)
    ensures NoRepeat(Ahead(shards, f, shard, 0))
    decreases |shards| - shard
  {
    hide Keyspaces.Valid, Cycle, Passing, Kept, Walks.DistinctKeys;
    var s := shards[shard];
    CycleIsExact(s.keys, s.hash);
    PassingKeepsDistinct(f, Cycle(s.keys, s.hash, 0));
    if shard + 1 < |shards| {
      AheadRepeatsNone(shards, f, shard + 1);
      var a, b := Passing(f, Cycle(s.keys, s.hash, 0)), Ahead(shards, f, shard + 1, 0);
      forall key | key in a ensures key !in b {
        KeptInCycle(s, f, key);
        AheadIsExact(shards, f, shard + 1, key);
      }
      JoinRepeatsNone(a, b);
    }
  }

  lemma JoinRepeatsNone(a: seq<Key>, b: seq<Key>)
    requires NoRepeat(a) && NoRepeat(b) && forall key :: key in a ==> key !in b
    ensures NoRepeat(a + b)
  {
    var c := a + b;
    forall i, j | 0 <= i < j < |c| ensures c[i] != c[j] {
      if i < |a| <= j {
        assert a[i] in a && b[j - |a|] in b;
      }
    }
  }

  /** A whole walk over shards nobody changes hands over a key exactly if some shard has it and
      it passes, and none twice. */
  lemma QuietWalkHandsOverEachOnce(w: World, f: Filter, run: seq<Event>)
    requires WorldOk(w) && w.client == Idle(0) && w.handed == []
    requires Possible(w, f.query, run) && Quiet(run, f.now) && After(w, f.query, run).client.Finished?
    ensures var handed := After(w, f.query, run).handed;
            && (forall key :: key in handed <==> exists i :: 0 <= i < |w.shards| && Kept(w.shards[i], f, key))
            && (OneShardEach(w.shards, f) ==> NoRepeat(handed))
  {
    hide Possible, After, Quiet, Ahead, Kept, NoRepeat, OneShardEach, Keyspaces.Valid;
    QuietWalkIsExact(w, f, run);
    forall key
      ensures key in Ahead(w.shards, f, 0, 0) <==> exists i :: 0 <= i < |w.shards| && Kept(w.shards[i], f, key)
    {
      AheadIsExact(w.shards, f, 0, key);
    }
    if OneShardEach(w.shards, f) {
      AheadRepeatsNone(w.shards, f, 0);
    }
  }
}
