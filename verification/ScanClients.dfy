/**
 A client's whole walk: it repeats `SCAN` from zero until it gets zero back, while anything may
 happen to any shard between two envelopes. Every interleaving of the client's calls, their
 envelopes and the mutations is a run.
 */
module ScanClients {
  import opened Basics
  import opened Words
  import opened Cursors
  import opened Tables
  import opened Keyspaces
  import opened Scans
  import opened Walks
  import opened Runs
  import opened ShardScans
  import opened Crossings
  import opened Glob

  /** A shard: its keyspace and the hash seeded for it. */
  datatype Shard = Shard(keys: Keyspace, hash: Hasher)

  datatype Client = Idle(cursor: Word) | Calling(call: Call) | Finished

  datatype World = World(shards: seq<Shard>, client: Client, handed: seq<Key>)

  datatype Event =
    | Change(shard: nat, op: Op)
    | Begin(keyTarget: nat)
    | Envelope(now: Instant)
    | Return

  ghost predicate ShardsOk(shards: seq<Shard>)
  {
    && 1 <= |shards| < SHARD_LIMIT
    && forall i :: 0 <= i < |shards| ==> Valid(shards[i].keys, shards[i].hash)
  }

  /** The client holds a cursor it was given, for a shard there is. */
  ghost predicate WorldOk(w: World)
    ensures WorldOk(w) ==> ShardsOk(w.shards)
  {
    && ShardsOk(w.shards)
    && match w.client
       case Idle(cursor) => Unpack(cursor).0 < |w.shards|
       case Calling(call) => CallOk(call) && call.shards == |w.shards|
       case Finished => true
  }

  predicate Enabled(w: World, e: Event)
  {
    match e
    case Change(shard, op) => shard < |w.shards| && Fits(w.shards[shard].keys, op)
    case Begin(_) => w.client.Idle?
    case Envelope(_) => w.client.Calling? && WantsStep(w.client.call)
    case Return => w.client.Calling? && !WantsStep(w.client.call)
  }

  /** One envelope of a call, answered by its shard. */
  ghost function Answered(s: Keyspace, c: Call, f: Filter): (r: Call)
    requires Shape(s)
    ensures r.shards == c.shards && c.keys <= r.keys
  {
    var w := Walk(s, c.internal, AtLeastOne(c.bucketsLeft));
    Fed(c, w.cursor, Passing(f, w.slots), w.steps)
  }

  ghost function Do(w: World, query: Query, e: Event): (r: World)
    requires WorldOk(w) && Enabled(w, e)
    ensures |r.shards| == |w.shards|
  {
    match e
    case Change(i, op) =>
      w.(shards := w.shards[i := w.shards[i].(keys := Apply(w.shards[i].keys, w.shards[i].hash, op))])
    case Begin(keyTarget) =>
      w.(client := Calling(Begun(|w.shards|, w.client.cursor, keyTarget, WALK_STEP_BUCKETS)))
    case Envelope(now) =>
      w.(client := Calling(Answered(w.shards[w.client.call.shard].keys, w.client.call, Filter(query, now))))
    case Return =>
      var call := w.client.call;
      World(w.shards, if Resume(call) == 0 then Finished else Idle(Resume(call)), w.handed + call.keys)
  }

  // ---------- What every event keeps ----------

  /** An envelope's answer feeds a call that packs, and moves it on: to a later cursor of the
      same shard with the budget spent, to the next shard, or to the end. */
  lemma StepMovesOn(shards: seq<Shard>, c: Call, f: Filter)
    requires ShardsOk(shards) && CallOk(c) && c.shards == |shards| && WantsStep(c)
    ensures var c' := Answered(shards[c.shard].keys, c, f);
            && CallOk(c')
            && (|| (&& c'.shard == c.shard && !c'.finished && c'.bucketsLeft == 0
                    && Position(c.internal) < Position(c'.internal))
                || (c'.shard == c.shard + 1 && !c'.finished && c'.internal == 0)
                || (c'.finished && c.shard + 1 == |shards|))
  {
    hide Words.Pow2, Cursors.Position, Walk, Passing, CallOk, Keyspaces.Placed, Keyspaces.Counted, Keyspaces.Loaded;
    var s, h := shards[c.shard].keys, shards[c.shard].hash;
    var w := Walk(s, c.internal, AtLeastOne(c.bucketsLeft));
    WalkBounds(s, h, c.internal, AtLeastOne(c.bucketsLeft));
    FedOk(c, w.cursor, Passing(f, w.slots), w.steps);
    WalkAdvances(s, h, c.internal, AtLeastOne(c.bucketsLeft));
  }

  lemma {:induction false} WalkAdvances(s: Keyspace, h: Hasher, cursor: Word, budget: nat)
    requires Placed(s, h) && budget > 0
    ensures var end := Walk(s, cursor, budget).cursor; end != 0 ==> Position(cursor) < Position(end)
    decreases budget
  {
    hide Visits, NextCursor, Keyspaces.Placed, Cursors.Position, Cursors.BlockStart, Cursors.Block, Words.Pow2;
    var next := NextCursor(s, cursor);
    if next != 0 {
      NonZeroNotEmpty(s, cursor);
      StepReachesBlockEnd(s, h, cursor);
      BlockBounds(cursor, Bits(s));
      if budget > 1 {
        WalkAdvances(s, h, next, budget - 1);
      }
    }
  }

  lemma DoKeepsOk(w: World, query: Query, e: Event)
    requires WorldOk(w) && Enabled(w, e)
    ensures WorldOk(Do(w, query, e))
  {
    hide Keyspaces.Valid, Apply, CallOk, Pack, Unpack, Answered, Resume;
    match e {
      case Change(i, op) =>
        ApplyRefines(w.shards[i].keys, w.shards[i].hash, op);
      case Begin(keyTarget) =>
        BegunOk(|w.shards|, w.client.cursor, keyTarget, WALK_STEP_BUCKETS);
      case Envelope(now) =>
        StepMovesOn(w.shards, w.client.call, Filter(query, now));
      case Return =>
        ZeroMeansSpent(w.client.call);
    }
  }

  // ---------- A key that stays ----------

  /** `key` is in shard `i`, and whenever an envelope is answered it is live and matches. */
  ghost predicate There(w: World, query: Query, e: Event, i: nat, key: Key)
    requires ShardsOk(w.shards)
  {
    && i < |w.shards|
    && var found := Get(w.shards[i].keys, w.shards[i].hash, key);
       && found.Some?
       && (e.Envelope? ==>
             && !query.policy.dueOnRead(found.value.expiresAt, e.now)
             && (query.pattern.Some? ==> Accepts(Tokens(query.pattern.value), key)))
  }

  /** Whether a place in the walk is at or before `key` of shard `i`. */
  predicate Before(shard: nat, internal: Word, i: nat, hash: Word)
  {
    shard < i || (shard == i && Position(internal) <= Position(hash))
  }

  /** The walk has yet to pass the key, or has gathered it. */
  ghost predicate OwedOrHanded(w: World, i: nat, key: Key)
    requires i < |w.shards|
  {
    || key in w.handed
    || match w.client
       case Idle(cursor) => Before(Unpack(cursor).0, Unpack(cursor).1, i, w.shards[i].hash(key))
       case Calling(call) =>
         key in call.keys || (!call.finished && Before(call.shard, call.internal, i, w.shards[i].hash(key)))
       case Finished => false
  }

  lemma StepKeepsOwed(shards: seq<Shard>, c: Call, f: Filter, i: nat, key: Key)
    requires ShardsOk(shards) && CallOk(c) && c.shards == |shards| && WantsStep(c) && i < |shards|
    requires var found := Get(shards[i].keys, shards[i].hash, key);
             found.Some? && Passes(f, Slot(shards[i].hash(key), key, found.value))
    requires Before(c.shard, c.internal, i, shards[i].hash(key))
    ensures var c' := Answered(shards[c.shard].keys, c, f);
            key in c'.keys || (!c'.finished && Before(c'.shard, c'.internal, i, shards[i].hash(key)))
  {
    hide Words.Pow2, Cursors.Position, Walk, Passing, Passes, CallOk, Keyspaces.Get, Keyspaces.Placed,
         Keyspaces.Counted, Keyspaces.Loaded;
    var s, h := shards[c.shard].keys, shards[c.shard].hash;
    var budget := AtLeastOne(c.bucketsLeft);
    var w := Walk(s, c.internal, budget);
    StepMovesOn(shards, c, f);
    PositionOfZero();
    if c.shard == i {
      if w.cursor == 0 || Position(h(key)) < Position(w.cursor) {
        PresentNotEmpty(s, h, key);
        WalkCovers(s, h, c.internal, budget, key);
        PassingHas(f, w.slots, Slot(h(key), key, Get(s, h, key).value));
      }
    }
  }

  lemma PositionOfZero()
    ensures Position(0) == 0
  {
    ReverseZero(WIDTH);
  }

  lemma DoKeepsOwed(w: World, query: Query, e: Event, i: nat, key: Key)
    requires WorldOk(w) && Enabled(w, e) && There(w, query, e, i, key) && OwedOrHanded(w, i, key)
    ensures OwedOrHanded(Do(w, query, e), i, key)
  {
    hide Keyspaces.Valid, Apply, CallOk, Pack, Unpack, Answered, Resume, Before, Keyspaces.Get, Passes, Accepts, Tokens;
    match e {
      case Change(_, _) =>
      case Begin(keyTarget) =>
      case Envelope(now) =>
        var c, f := w.client.call, Filter(query, now);
        if key !in w.handed && key !in c.keys {
          PassesIff(f, Slot(w.shards[i].hash(key), key, Get(w.shards[i].keys, w.shards[i].hash, key).value));
          StepKeepsOwed(w.shards, c, f, i, key);
        }
      case Return =>
        ZeroMeansSpent(w.client.call);
    }
  }

  // ---------- Runs ----------

  /** Whether the events can happen one after another. */
  ghost predicate Possible(w: World, query: Query, run: seq<Event>)
    requires WorldOk(w)
    decreases |run|
  {
    run == [] || (Enabled(w, run[0]) && (DoKeepsOk(w, query, run[0]); Possible(Do(w, query, run[0]), query, run[1..])))
  }

  ghost function After(w: World, query: Query, run: seq<Event>): World
    requires WorldOk(w) && Possible(w, query, run)
    decreases |run|
  {
    if run == [] then w
    else
      DoKeepsOk(w, query, run[0]);
      After(Do(w, query, run[0]), query, run[1..])
  }

  /** `key` is in shard `i` before every event, live and matching at every envelope. */
  ghost predicate Stays(w: World, query: Query, run: seq<Event>, i: nat, key: Key)
    requires WorldOk(w) && Possible(w, query, run)
    decreases |run|
  {
    run == [] || (There(w, query, run[0], i, key)
                  && (DoKeepsOk(w, query, run[0]); Stays(Do(w, query, run[0]), query, run[1..], i, key)))
  }

  lemma {:induction false} RunKeepsOwed(w: World, query: Query, run: seq<Event>, i: nat, key: Key)
    requires WorldOk(w) && Possible(w, query, run) && Stays(w, query, run, i, key)
    requires i < |w.shards| && OwedOrHanded(w, i, key)
    ensures |After(w, query, run).shards| == |w.shards| && OwedOrHanded(After(w, query, run), i, key)
    decreases |run|
  {
    hide WorldOk, Enabled, There, OwedOrHanded, Do, ShardsOk;
    if run != [] {
      DoKeepsOk(w, query, run[0]);
      DoKeepsOwed(w, query, run[0], i, key);
      RunKeepsOwed(Do(w, query, run[0]), query, run[1..], i, key);
    }
  }

  /** The client's guarantee: a walk begun at zero and carried on until zero comes back hands
      over every key that stayed in its shard, live and matching, whatever happened to it, to
      the table under it, and to every other key, in between. */
  lemma WalkHandsOverEveryKeyThatStays(w: World, query: Query, run: seq<Event>, i: nat, key: Key)
    requires WorldOk(w) && w.client == Idle(0) && i < |w.shards|
    requires Possible(w, query, run) && Stays(w, query, run, i, key)
    requires After(w, query, run).client.Finished?
    ensures key in After(w, query, run).handed
  {
    hide WorldOk, Possible, After, Stays, Words.Pow2;
    StartIsBeforeAll(w, i, key);
    RunKeepsOwed(w, query, run, i, key);
  }

  lemma StartIsBeforeAll(w: World, i: nat, key: Key)
    requires w.client == Idle(0) && i < |w.shards|
    ensures OwedOrHanded(w, i, key)
  {
    hide Words.Pow2, Cursors.Position, Unpack;
    PositionOfZero();
    StartsAtZero();
  }

  lemma StartsAtZero()
    ensures Unpack(0) == (0, 0)
  {
    hide Words.Pow2, Unpack, Pack;
    ZeroIsTheStart(0, 0);
  }

  // ---------- The cursor ----------

  /** Where the client's walk stands. */
  function Place(client: Client): (nat, Word)
    requires !client.Finished?
  {
    if client.Idle? then Unpack(client.cursor) else (client.call.shard, client.call.internal)
  }

  predicate Further(a: (nat, Word), b: (nat, Word))
  {
    a.0 < b.0 || (a.0 == b.0 && Position(a.1) < Position(b.1))
  }

  /** The walk never goes back: an envelope moves it strictly on or ends it, and nothing else
      moves it; and zero comes back exactly when the last shard is spent. */
  lemma WalkNeverGoesBack(w: World, query: Query, e: Event)
    requires WorldOk(w) && Enabled(w, e) && !w.client.Finished?
    ensures var w' := Do(w, query, e);
            && (w'.client.Finished? <==> e.Return? && w.client.call.finished)
            && (e.Envelope? ==> w'.client.call.finished || Further(Place(w.client), Place(w'.client)))
            && (e.Envelope? && w'.client.call.finished ==> w.client.call.shard + 1 == |w.shards|)
            && (!e.Envelope? && !w'.client.Finished? ==> Place(w'.client) == Place(w.client))
  {
    hide Keyspaces.Valid, Apply, CallOk, Pack, Unpack, Answered, Resume, Cursors.Position, Words.Pow2;
    if e.Envelope? {
      StepMovesOn(w.shards, w.client.call, Filter(query, e.now));
    } else if e.Return? {
      ZeroMeansSpent(w.client.call);
    }
  }

  /** Everything an envelope brings was stored in the shard it was sent to, live and matching. */
  lemma AnswerIsHonest(s: Keyspace, h: Hasher, c: Call, f: Filter, key: Key)
    requires Placed(s, h) && key in Answered(s, c, f).keys && key !in c.keys
    ensures Get(s, h, key).Some? && !f.query.policy.dueOnRead(Get(s, h, key).value.expiresAt, f.now)
    ensures f.query.pattern.Some? ==> Accepts(Tokens(f.query.pattern.value), key)
  {
    hide Walk, Passing, Passes, Keyspaces.Get, Keyspaces.Placed, Accepts, Tokens;
    var slots := Walk(s, c.internal, AtLeastOne(c.bucketsLeft)).slots;
    var slot := PassingOnly(f, slots, key);
    WalkIsStored(s, h, c.internal, AtLeastOne(c.bucketsLeft), slot);
    PassesIff(f, slot);
  }

  // ---------- The walk ends ----------

  /** Shards still ahead, counting the one the walk is in. */
  ghost function ShardsLeft(w: World): nat
    requires WorldOk(w) && !w.client.Finished?
  {
    if w.client.Calling? && w.client.call.finished then 0 else |w.shards| - Place(w.client).0
  }

  /** How many events a call is from its next envelope. */
  function EventsToEnvelope(client: Client): nat
  {
    if client.Idle? then 1 else if client.Calling? && !WantsStep(client.call) then 2 else 0
  }

  /** What a client left alone does next: it asks for as many keys as it likes each time. */
  function NextEvent(w: World, ask: World -> nat, clock: World -> Instant): Event
    requires !w.client.Finished?
  {
    match w.client
    case Idle(_) => Begin(ask(w))
    case Calling(call) => if WantsStep(call) then Envelope(clock(w)) else Return
  }

  /** Whether a run is what such a client does to the end. */
  ghost predicate RunsToTheEnd(w: World, query: Query, ask: World -> nat, clock: World -> Instant,
                               run: seq<Event>)
    requires WorldOk(w)
    decreases |run|
  {
    if w.client.Finished? then run == []
    else
      && run != [] && run[0] == NextEvent(w, ask, clock)
      && (DoKeepsOk(w, query, run[0]); RunsToTheEnd(Do(w, query, run[0]), query, ask, clock, run[1..]))
  }

  /** Left alone, a client that goes on asking comes to the end, whatever it asks for each time. */
  lemma {:induction false} WalkEnds(w: World, query: Query, ask: World -> nat, clock: World -> Instant)
    returns (run: seq<Event>)
    requires WorldOk(w) && !w.client.Finished?
    ensures RunsToTheEnd(w, query, ask, clock, run)
    ensures Possible(w, query, run) && After(w, query, run).client.Finished?
    decreases ShardsLeft(w), MODULUS - Position(Place(w.client).1), EventsToEnvelope(w.client)
  {
    hide WorldOk, Do, Cursors.Position;
    var e := NextEvent(w, ask, clock);
    NextEventNears(w, query, ask, clock);
    var w' := Do(w, query, e);
    var rest: seq<Event> := [];
    if !w'.client.Finished? {
      rest := WalkEnds(w', query, ask, clock);
    }
    run := [e] + rest;
    assert run[1..] == rest;
  }

  /** There is always a next event, and it brings the end nearer. */
  lemma NextEventNears(w: World, query: Query, ask: World -> nat, clock: World -> Instant)
    requires WorldOk(w) && !w.client.Finished?
    ensures var e := NextEvent(w, ask, clock);
            && Enabled(w, e) && WorldOk(Do(w, query, e))
            && var w' := Do(w, query, e);
               w'.client.Finished? ||
               (ShardsLeft(w), MODULUS - Position(Place(w.client).1), EventsToEnvelope(w.client)
                  decreases to ShardsLeft(w'), MODULUS - Position(Place(w'.client).1), EventsToEnvelope(w'.client))
  {
    hide Keyspaces.Valid, Pack, Unpack, Answered, Resume, Cursors.Position, Words.Pow2;
    var e := NextEvent(w, ask, clock);
    DoKeepsOk(w, query, e);
    WalkNeverGoesBack(w, query, e);
    if e.Envelope? {
      StepMovesOn(w.shards, w.client.call, Filter(query, e.now));
    }
  }
}
