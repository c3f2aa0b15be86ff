/**
 The `SCAN` request: a loop that drives one call across the shards and answers its page.
 */
module ScanCalls {
  import opened Basics
  import opened Words
  import opened Cursors
  import opened Tables
  import K = Keyspaces
  import opened Walks
  import opened Dicts
  import opened ShardScans
  import opened Crossings
  import opened ScanClients

  // ---------- One request ----------

  datatype Reply = InvalidCursor | Unavailable | Page(cursor: Word, keys: seq<Key>)

  /** The shards as they stand. */
  ghost function Shards(dicts: seq<Dict>): seq<Shard>
    reads dicts
  {
    if dicts == [] then []
    else
      var n := |dicts| - 1;
      Shards(dicts[..n]) + [Shard(dicts[n].State(), dicts[n].hash)]
  }

  lemma {:induction false} ShardsAre(dicts: seq<Dict>)
    ensures |Shards(dicts)| == |dicts|
    ensures forall i :: 0 <= i < |dicts| ==> Shards(dicts)[i] == Shard(dicts[i].State(), dicts[i].hash)
  {
    if dicts != [] {
      ShardsAre(dicts[..|dicts| - 1]);
    }
  }

  ghost predicate Serving(dicts: seq<Dict>)
    reads dicts
  {
    forall i :: 0 <= i < |dicts| ==> dicts[i].Valid()
  }

  lemma ServingIsOk(dicts: seq<Dict>)
    requires 1 <= |dicts| < SHARD_LIMIT && Serving(dicts)
    ensures ShardsOk(Shards(dicts)) && |Shards(dicts)| == |dicts|
    ensures forall i :: 0 <= i < |dicts| ==> Shards(dicts)[i] == Shard(dicts[i].State(), dicts[i].hash)
  {
    hide K.Valid;
    ShardsAre(dicts);
    forall i | 0 <= i < |dicts| ensures K.Valid(Shards(dicts)[i].keys, Shards(dicts)[i].hash) {
      assert dicts[i].Valid();
    }
  }

  lemma StepGoesOn(shards: seq<Shard>, c: Call, f: Filter)
    requires ShardsOk(shards) && CallOk(c) && c.shards == |shards| && WantsStep(c)
    ensures var c' := Answered(shards[c.shard].keys, c, f);
            CallOk(c') && c'.shards == c.shards && c'.bucketsLeft < c.bucketsLeft
  {
    hide CallOk, Walk, Passing, K.Valid, Words.Pow2, Cursors.Position;
    StepMovesOn(shards, c, f);
  }

  /** What a call answers: envelope after envelope until it wants no more, or until it comes to a
      shard that does not answer. */
  ghost function Outcome(shards: seq<Shard>, down: set<nat>, c: Call, f: Filter): Reply
    requires ShardsOk(shards) && CallOk(c) && c.shards == |shards|
    decreases c.bucketsLeft
  {
    if !WantsStep(c) then Page(Resume(c), c.keys)
    else if c.shard in down then Unavailable
    else
      StepGoesOn(shards, c, f);
      Outcome(shards, down, Answered(shards[c.shard].keys, c, f), f)
  }

  /** A cursor naming a shard there is not is refused before anything is dispatched; otherwise
      the call is driven to its end, with at most one envelope for each shard it crosses. It goes on
      only while it has gathered fewer keys than were asked for, at least one being asked for, and
      stops short of the end only with that many or with 1024 buckets visited. `last` is what the
      last envelope brought and `visited` how many buckets all of them visited. */
  method Scan(dicts: seq<Dict>, down: set<nat>, cursor: Word, keyTarget: nat, f: Filter)
    returns (r: Reply, ghost envelopes: nat, ghost last: seq<Key>, ghost visited: nat)
    requires 1 <= |dicts| < SHARD_LIMIT && Serving(dicts)
    ensures r.InvalidCursor? <==> Unpack(cursor).0 >= |dicts|
    ensures !r.InvalidCursor? ==>
              var c := Begun(|dicts|, cursor, keyTarget, WALK_STEP_BUCKETS);
              && ShardsOk(Shards(dicts)) && CallOk(c) && c.shards == |Shards(dicts)|
              && r == Outcome(Shards(dicts), down, c, f)
    ensures Unpack(cursor).0 < |dicts| ==> envelopes <= |dicts| - Unpack(cursor).0
    ensures envelopes <= visited <= 1024
    ensures !r.InvalidCursor? ==> forall i :: i in down ==> i < Unpack(cursor).0 || i >= Unpack(cursor).0 + envelopes
    ensures r.Unavailable? ==> Unpack(cursor).0 + envelopes in down
    ensures r.Page? ==>
              var asked := if keyTarget == 0 then 1 else keyTarget;
              && envelopes >= 1 && |last| <= |r.keys| && r.keys[|r.keys| - |last|..] == last
              && |r.keys| - |last| < asked
              && (r.cursor != 0 ==> |r.keys| >= asked || visited == 1024)
  {
    hide CallOk, Answered, Resume, Pack, Unpack, Outcome, ShardsOk, Passing, Walk, K.Valid, Begun, Words.Pow2, Serving,
         Cursors.Position, WantsStep, Shards, ShortBefore;
    envelopes, last, visited := 0, [], 0;
    var begun := Crossing.Begin(|dicts|, cursor, keyTarget, WALK_STEP_BUCKETS);
    if begun.None? {
      return InvalidCursor, 0, [], 0;
    }
    var crossing := begun.value;
    ghost var start := Unpack(cursor);
    ghost var shards := Shards(dicts);
    ServingIsOk(dicts);
    ghost var c0 := crossing.State();
    BegunBudget(|dicts|, cursor, keyTarget);
    NoneIsShort(crossing.keyTarget);
    var step := crossing.Wants();
    while step.Some?
      invariant fresh(crossing) && crossing.Valid() && crossing.shards == |dicts| && Shards(dicts) == shards
      invariant step.Some? <==> WantsStep(crossing.State())
      invariant step.Some? ==> step.value == StepRequest(crossing.shard, crossing.internal, crossing.bucketsLeft)
      invariant Outcome(shards, down, crossing.State(), f) == Outcome(shards, down, c0, f)
      invariant crossing.bucketsLeft + visited == WALK_STEP_BUCKETS && envelopes <= visited
      invariant step.Some? <==> !crossing.finished && |crossing.keys| < crossing.keyTarget && crossing.bucketsLeft > 0
      invariant crossing.keyTarget == AtLeastOne(keyTarget) && (envelopes == 0 ==> step.Some?)
      invariant ShortBefore(crossing.keys, last, crossing.keyTarget)
      invariant step.Some? ==> crossing.shard == start.0 + envelopes
      invariant forall i :: i in down ==> i < start.0 || i >= start.0 + envelopes
      invariant envelopes <= |dicts| - start.0
      decreases crossing.bucketsLeft
    {
      ghost var c := crossing.State();
      OutcomeSteps(shards, down, c, f);
      if step.value.shard in down {
        return Unavailable, envelopes, last, visited;
      }
      StepMovesOn(shards, c, f);
      ghost var met;
      last, met := Dispatch(dicts, crossing, step.value, f);
      ShortThen(c.keys, last, crossing.keyTarget);
      envelopes, visited := envelopes + 1, visited + met;
      step := crossing.Wants();
    }
    OutcomeEnds(shards, down, crossing.State(), f);
    ShortMeans(crossing.keys, last, crossing.keyTarget);
    var page, found := crossing.Finish();
    return Page(page, found), envelopes, last, visited;
  }

  /** One envelope: the shard it names answers, and the answer is fed back. */
  method Dispatch(dicts: seq<Dict>, crossing: Crossing, step: StepRequest, f: Filter)
    returns (ghost found: seq<Key>, ghost met: nat)
    requires 1 <= |dicts| < SHARD_LIMIT && Serving(dicts)
    requires crossing.Valid() && crossing.shards == |dicts| && WantsStep(crossing.State())
    requires step == StepRequest(crossing.shard, crossing.internal, crossing.bucketsLeft)
    modifies crossing
    ensures crossing.Valid()
    ensures crossing.State() == Answered(dicts[step.shard].State(), old(crossing.State()), f)
    ensures crossing.keys == old(crossing.keys) + found
    ensures met >= 1 && crossing.bucketsLeft + met == old(crossing.bucketsLeft)
  {
    hide CallOk, Answered, Passing, Walk, K.Valid, Words.Pow2, ShardsOk, Shards;
    ghost var c := crossing.State();
    ServingIsOk(dicts);
    AnswerFits(Shards(dicts), c);
    var next, keys, visited := ScanStep(dicts[step.shard], step.cursor, step.count, f);
    AnsweredIs(dicts[step.shard].State(), c, f);
    crossing.Feed(next, keys, visited);
    found, met := keys, visited;
  }

  /** Without what the last envelope brought, there were fewer keys than asked for. */
  ghost predicate ShortBefore(keys: seq<Key>, last: seq<Key>, target: nat)
  {
    |last| <= |keys| && keys[|keys| - |last|..] == last && |keys| - |last| < target
  }

  lemma ShortThen(keys: seq<Key>, found: seq<Key>, target: nat)
    requires |keys| < target
    ensures ShortBefore(keys + found, found, target)
  {
  }

  lemma NoneIsShort(target: nat)
    requires target > 0
    ensures ShortBefore([], [], target)
  {
  }

  lemma ShortMeans(keys: seq<Key>, last: seq<Key>, target: nat)
    requires ShortBefore(keys, last, target)
    ensures |last| <= |keys| && keys[|keys| - |last|..] == last && |keys| - |last| < target
  {
  }

  lemma BegunBudget(shards: nat, cursor: Word, keyTarget: nat)
    ensures var c := Begun(shards, cursor, keyTarget, WALK_STEP_BUCKETS);
            && c.bucketsLeft == WALK_STEP_BUCKETS && c.shards == shards && c.shard == Unpack(cursor).0
            && c.keyTarget == AtLeastOne(keyTarget) && c.keys == [] && !c.finished
  {
  }

  lemma OutcomeSteps(shards: seq<Shard>, down: set<nat>, c: Call, f: Filter)
    requires ShardsOk(shards) && CallOk(c) && c.shards == |shards| && WantsStep(c)
    ensures c.shard in down ==> Outcome(shards, down, c, f) == Unavailable
    ensures CallOk(Answered(shards[c.shard].keys, c, f))
    ensures c.shard !in down ==>
              Outcome(shards, down, c, f) == Outcome(shards, down, Answered(shards[c.shard].keys, c, f), f)
  {
    hide CallOk, Answered, Resume, Words.Pow2, Cursors.Position;
    StepGoesOn(shards, c, f);
  }

  lemma OutcomeEnds(shards: seq<Shard>, down: set<nat>, c: Call, f: Filter)
    requires ShardsOk(shards) && CallOk(c) && c.shards == |shards| && !WantsStep(c)
    ensures Outcome(shards, down, c, f) == Page(Resume(c), c.keys)
  {
    hide CallOk, Answered, Resume, Words.Pow2;
  }

  lemma AnswerFits(shards: seq<Shard>, c: Call)
    requires ShardsOk(shards) && CallOk(c) && c.shards == |shards| && WantsStep(c)
    ensures var w := Walk(shards[c.shard].keys, c.internal, AtLeastOne(c.bucketsLeft));
            w.cursor < Pow2(CURSOR_INTERNAL_BITS) && 1 <= w.steps <= c.bucketsLeft
  {
    hide CallOk, Walk, Words.Pow2;
    WalkBounds(shards[c.shard].keys, shards[c.shard].hash, c.internal, AtLeastOne(c.bucketsLeft));
  }

  lemma AnsweredIs(s: K.Keyspace, c: Call, f: Filter)
    requires K.Shape(s)
    ensures var w := Walk(s, c.internal, AtLeastOne(c.bucketsLeft));
            Answered(s, c, f) == Fed(c, w.cursor, Passing(f, w.slots), w.steps)
  {
    hide Walk, Passing;
  }
}
