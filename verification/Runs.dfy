/**
 Whole runs of a keyspace: any sequence of operations refines the same operations on a plain
 map, and a walk interleaved with any of them visits every key that stays.
 */
module Runs {
  import opened Basics
  import opened Words
  import opened Cursors
  import opened Tables
  import opened Keyspaces
  import opened KeyspaceProofs
  import opened Scans

  datatype Op =
    | OpInsert(key: Key, entry: Entry)
    | OpRemove(key: Key)
    | OpSetDeadline(key: Key, deadline: Option<Instant>)
    | OpTouch(key: Key)
    | OpRehash(buckets: nat)
    | OpClear

  function Apply(s: Keyspace, h: Hasher, op: Op): (r: Keyspace)
    requires Shape(s)
    ensures Shape(r)
  {
    match op
    case OpInsert(key, entry) => Insert(s, h, key, entry)
    case OpRemove(key) => Remove(s, h, key)
    case OpSetDeadline(key, deadline) => SetDeadline(s, h, key, deadline)
    case OpTouch(key) => Touch(s, h, key)
    case OpRehash(buckets) => RehashStep(s, buckets)
    case OpClear => New()
  }

  /** Within the machine's limit on how many entries there can be. */
  predicate Fits(s: Keyspace, op: Op)
  {
    op.OpInsert? ==> s.len < MAX_LEN
  }

  // ---------- The plain map ----------

  /** The reference: a map, and the counter touches are stamped from. */
  datatype Reference = Reference(entries: map<Key, Entry>, clock: nat)

  ghost function Abstract(s: Keyspace, h: Hasher): Reference
    requires Shape(s)
  {
    Reference(Contents(s, h), s.clock)
  }

  ghost function ApplyToMap(r: Reference, op: Op): Reference
  {
    match op
    case OpInsert(key, entry) => r.(entries := r.entries[key := entry])
    case OpRemove(key) => r.(entries := r.entries - {key})
    case OpSetDeadline(key, deadline) =>
      r.(entries := Redated(r.entries, key, deadline))
    case OpTouch(key) =>
      var clock := (r.clock + 1) % CLOCK_MODULUS;
      Reference(Stamped(r.entries, key, clock), clock)
    case OpRehash(_) => r
    case OpClear => Reference(map[], 0)
  }

  lemma ApplyRefines(s: Keyspace, h: Hasher, op: Op)
    requires Valid(s, h) && Fits(s, op)
    ensures Valid(Apply(s, h, op), h)
    ensures Abstract(Apply(s, h, op), h) == ApplyToMap(Abstract(s, h), op)
  {
    hide Keyspaces.Valid, Keyspaces.Insert, Keyspaces.Remove, Keyspaces.SetDeadline, Keyspaces.Touch,
         Keyspaces.RehashStep, Keyspaces.New, Keyspaces.Contents, KeyspaceProofs.Redated, KeyspaceProofs.Stamped,
         Keyspaces.Placed;
    ClockMoves(s, h, op);
    match op
    case OpInsert(key, entry) => InsertRefines(s, h, key, entry);
    case OpRemove(key) => RemoveRefines(s, h, key);
    case OpSetDeadline(key, deadline) => SetDeadlineRefines(s, h, key, deadline);
    case OpTouch(key) => TouchRefines(s, h, key);
    case OpRehash(buckets) => RehashKeeps(s, h, buckets);
    case OpClear => NewValid(h);
  }

  lemma ClockMoves(s: Keyspace, h: Hasher, op: Op)
    requires Shape(s)
    ensures Apply(s, h, op).clock
         == if op.OpTouch? then (s.clock + 1) % CLOCK_MODULUS else if op.OpClear? then 0 else s.clock
  {
    hide Tables.Find, Keyspaces.Get;
  }

  function Run(s: Keyspace, h: Hasher, ops: seq<Op>): (r: Keyspace)
    requires Shape(s)
    ensures Shape(r)
    decreases |ops|
  {
    if ops == [] then s else Run(Apply(s, h, ops[0]), h, ops[1..])
  }

  predicate RunFits(s: Keyspace, h: Hasher, ops: seq<Op>)
    requires Shape(s)
    decreases |ops|
  {
    ops == [] || (Fits(s, ops[0]) && RunFits(Apply(s, h, ops[0]), h, ops[1..]))
  }

  ghost function RunOnMap(r: Reference, ops: seq<Op>): Reference
    decreases |ops|
  {
    if ops == [] then r else RunOnMap(ApplyToMap(r, ops[0]), ops[1..])
  }

  /** Every run of operations, from any valid keyspace, is the same run on the plain map, and
      leaves counters, load and placement exact. */
  lemma {:induction false} RunRefines(s: Keyspace, h: Hasher, ops: seq<Op>)
    requires Valid(s, h) && RunFits(s, h, ops)
    ensures Valid(Run(s, h, ops), h)
    ensures Abstract(Run(s, h, ops), h) == RunOnMap(Abstract(s, h), ops)
    decreases |ops|
  {
    hide Keyspaces.Valid, Apply, Abstract, ApplyToMap;
    if ops != [] {
      ApplyRefines(s, h, ops[0]);
      RunRefines(Apply(s, h, ops[0]), h, ops[1..]);
    }
  }

  // ---------- A walk interleaved with operations ----------

  datatype Event = Mutate(op: Op) | Step

  /** The keyspace after an event: a step of the walk only reads. */
  function After(s: Keyspace, h: Hasher, e: Event): (r: Keyspace)
    requires Shape(s)
    ensures Shape(r)
  {
    if e.Mutate? then Apply(s, h, e.op) else s
  }

  /** The walk's cursor after an event. */
  function CursorAfter(s: Keyspace, cursor: Word, e: Event): Word
    requires Shape(s)
  {
    if e.Step? then NextCursor(s, cursor) else cursor
  }

  /** The events are one cycle from `cursor`: they end with the first step that returns zero. */
  predicate EndsCycle(s: Keyspace, h: Hasher, cursor: Word, events: seq<Event>)
    requires Shape(s)
    decreases |events|
  {
    && events != []
    && if events[0].Step? && NextCursor(s, cursor) == 0 then |events| == 1
       else EndsCycle(After(s, h, events[0]), h, CursorAfter(s, cursor, events[0]), events[1..])
  }

  predicate EventsFit(s: Keyspace, h: Hasher, events: seq<Event>)
    requires Shape(s)
    decreases |events|
  {
    events == [] || ((events[0].Mutate? ==> Fits(s, events[0].op)) && EventsFit(After(s, h, events[0]), h, events[1..]))
  }

  /** `key` is there before every event. */
  predicate Stays(s: Keyspace, h: Hasher, events: seq<Event>, key: Key)
    requires Shape(s)
    decreases |events|
  {
    Get(s, h, key).Some? && (events != [] ==> Stays(After(s, h, events[0]), h, events[1..], key))
  }

  /** Every key handed out along the way. */
  function KeysVisited(s: Keyspace, h: Hasher, cursor: Word, events: seq<Event>): set<Key>
    requires Shape(s)
    decreases |events|
  {
    if events == [] then {}
    else
      (if events[0].Step? then (set slot | slot in Visits(s, cursor) :: slot.key) else {})
      + KeysVisited(After(s, h, events[0]), h, CursorAfter(s, cursor, events[0]), events[1..])
  }

  /** From any cursor to the end of its cycle, every key that stays and lies at or after the
      cursor's position is visited, whatever the tables do in between. */
  lemma {:induction false} RestOfCycleVisits(s: Keyspace, h: Hasher, cursor: Word, events: seq<Event>, key: Key)
    requires Valid(s, h) && EventsFit(s, h, events)
    requires EndsCycle(s, h, cursor, events) && Stays(s, h, events, key)
    requires Position(cursor) <= Position(h(key))
    ensures key in KeysVisited(s, h, cursor, events)
    decreases |events|
  {
    hide Cursors.Position, Apply, Keyspaces.Get, Visits, NextCursor, Keyspaces.Placed, Keyspaces.Loaded;
    var s', cursor' := After(s, h, events[0]), CursorAfter(s, cursor, events[0]);
    if events[0].Mutate? {
      ApplyRefines(s, h, events[0].op);
      RestOfCycleVisits(s', h, cursor', events[1..], key);
    } else {
      PresentNotEmpty(s, h, key);
      if cursor' == 0 || Position(h(key)) < Position(cursor') {
        StepCovers(s, h, cursor, key);
      } else {
        RestOfCycleVisits(s', h, cursor', events[1..], key);
      }
    }
  }

  lemma PresentNotEmpty(s: Keyspace, h: Hasher, key: Key)
    requires Valid(s, h) && Get(s, h, key).Some?
    ensures s.len != 0
  {
    assert key in Contents(s, h);
  }

  /** The walk's contract: a cycle begun at cursor zero visits every key that is present for
      the whole of it. */
  lemma CycleVisitsEveryKeyThatStays(s: Keyspace, h: Hasher, events: seq<Event>, key: Key)
    requires Valid(s, h) && EventsFit(s, h, events)
    requires EndsCycle(s, h, 0, events) && Stays(s, h, events, key)
    ensures key in KeysVisited(s, h, 0, events)
  {
    hide EndsCycle, Stays, EventsFit, KeysVisited;
    ReverseZero(WIDTH);
    RestOfCycleVisits(s, h, 0, events, key);
  }

  // ---------- How long a cycle takes ----------

  function Steps(events: seq<Event>): nat
  {
    if events == [] then 0 else (if events[0].Step? then 1 else 0) + Steps(events[1..])
  }

  function Final(s: Keyspace, h: Hasher, events: seq<Event>): (r: Keyspace)
    requires Shape(s)
    ensures Shape(r)
    decreases |events|
  {
    if events == [] then s else Final(After(s, h, events[0]), h, events[1..])
  }

  predicate NoClear(events: seq<Event>)
  {
    forall i :: 0 <= i < |events| && events[i].Mutate? ==> !events[i].op.OpClear?
  }

  /** Nothing but a clear makes the table smaller. */
  lemma NeverShrinks(s: Keyspace, h: Hasher, op: Op)
    requires Placed(s, h) && !op.OpClear?
    ensures Log2(|Apply(s, h, op).base|) >= Log2(|s.base|)
  {
    hide Tables.Find, Words.Log2, Keyspaces.Migrate;
    Log2Doubles(|s.base|);
  }

  lemma {:induction false} FinalIsValid(s: Keyspace, h: Hasher, events: seq<Event>)
    requires Valid(s, h) && EventsFit(s, h, events)
    ensures Valid(Final(s, h, events), h)
    ensures NoClear(events) ==> Bits(Final(s, h, events)) >= Bits(s)
    decreases |events|
  {
    hide Keyspaces.Valid, Apply, Words.Log2;
    if events != [] {
      if events[0].Mutate? {
        ApplyRefines(s, h, events[0].op);
        if NoClear(events) {
          assert !events[0].op.OpClear?;
          NeverShrinks(s, h, events[0].op);
        }
      }
      assert NoClear(events) ==> NoClear(events[1..]);
      FinalIsValid(After(s, h, events[0]), h, events[1..]);
    }
  }

  /** A step that does not end the cycle leaves its block, at any finer resolution. */
  lemma StepLeavesBlock(s: Keyspace, h: Hasher, cursor: Word, k: nat)
    requires Placed(s, h) && s.len != 0 && Bits(s) <= k <= WIDTH && NextCursor(s, cursor) != 0
    ensures Block(cursor, k) < Block(NextCursor(s, cursor), k)
  {
    hide Cursors.Position, NextCursor, Keyspaces.Placed, Cursors.Block, Cursors.BlockStart;
    var next := NextCursor(s, cursor);
    StepReachesBlockEnd(s, h, cursor);
    BlockBounds(cursor, Bits(s));
    StartAtFiner(Block(cursor, Bits(s)) + 1, Bits(s), k);
    BlockBounds(cursor, k);
    var q: nat :| BlockStart(q, k) == Position(next);
    BlockOfStart(next, q, k);
    if q <= Block(cursor, k) {
      BlockOrder(q, Block(cursor, k), k);
    }
  }

  /** The start of a block is the start of a block at any finer resolution. */
  lemma {:induction false} StartAtFiner(q: nat, k: nat, k': nat)
    requires k <= k' <= WIDTH
    ensures exists q': nat :: BlockStart(q', k') == BlockStart(q, k)
    decreases k' - k
  {
    if k == k' {
      assert BlockStart(q, k') == BlockStart(q, k);
    } else {
      StartSplits(q, k);
      StartAtFiner(2 * q, k + 1, k');
    }
  }

  /** Without a clear, a cycle takes no more steps than the table it ends on has buckets,
      however often it doubled, and from any cursor. */
  lemma CycleIsShort(s: Keyspace, h: Hasher, cursor: Word, events: seq<Event>)
    requires Valid(s, h) && EventsFit(s, h, events) && EndsCycle(s, h, cursor, events) && NoClear(events)
    ensures Steps(events) <= |Final(s, h, events).base|
  {
    var k := Bits(Final(s, h, events));
    FinalIsValid(s, h, events);
    Sizes(Final(s, h, events), h);
    BlockIsReversedBucket(cursor, k);
    StepsLeft(s, h, cursor, events, k);
  }

  lemma {:induction false} StepsLeft(s: Keyspace, h: Hasher, cursor: Word, events: seq<Event>, k: nat)
    requires Valid(s, h) && EventsFit(s, h, events) && EndsCycle(s, h, cursor, events) && NoClear(events)
    requires k == Bits(Final(s, h, events)) && k <= WIDTH
    ensures Steps(events) + Block(cursor, k) <= Pow2(k)
    decreases |events|
  {
    hide Cursors.Position, Apply, Keyspaces.Placed, Keyspaces.Counted, Keyspaces.Loaded, Cursors.Block,
         NextCursor, Bits;
    var s', cursor' := After(s, h, events[0]), CursorAfter(s, cursor, events[0]);
    BlockIsReversedBucket(cursor, k);
    if events[0].Mutate? {
      ApplyRefines(s, h, events[0].op);
    } else if cursor' != 0 {
      FinalIsValid(s, h, events);
      NonZeroNotEmpty(s, cursor);
      StepLeavesBlock(s, h, cursor, k);
    }
    if events[0].Mutate? || cursor' != 0 {
      assert NoClear(events[1..]);
      StepsLeft(s', h, cursor', events[1..], k);
    } else {
      assert events[1..] == [];
    }
  }

  lemma NonZeroNotEmpty(s: Keyspace, cursor: Word)
    requires Shape(s) && NextCursor(s, cursor) != 0
    ensures s.len != 0
  {
  }

  /** Left alone, a walk from any cursor ends its cycle. */
  lemma {:induction false} CycleEnds(s: Keyspace, h: Hasher, cursor: Word) returns (events: seq<Event>)
    requires Placed(s, h)
    ensures EndsCycle(s, h, cursor, events) && forall i :: 0 <= i < |events| ==> events[i] == Step
    decreases MODULUS - Position(cursor)
  {
    hide Cursors.Position, NextCursor, Keyspaces.Placed, Cursors.Block, Cursors.BlockStart, Words.Pow2;
    var next := NextCursor(s, cursor);
    if next == 0 {
      events := [Step];
    } else {
      NonZeroNotEmpty(s, cursor);
      StepReachesBlockEnd(s, h, cursor);
      BlockBounds(cursor, Bits(s));
      var rest := CycleEnds(s, h, next);
      events := [Step] + rest;
      assert events[1..] == rest;
    }
  }
}
