/**
 The keyspace as a value: one table, or two while a growth migrates buckets from the smaller
 to the larger, with the counters kept beside them. Every operation is a function from
 keyspace to keyspace; the map from key to entry is the reference each is proved against.
 */
module Keyspaces {
  import opened Basics
  import opened Words
  import opened Cursors
  import opened Tables

  const INITIAL_BUCKETS: nat := 8

  const ENTRY_OVERHEAD: nat := 96

  const BUCKET_OVERHEAD: nat := 24

  const CLOCK_MODULUS: nat := 0x1_0000_0000

  /** More entries than any address space holds slots for: a machine limit, not the dict's. */
  const MAX_LEN: nat := 0x8000_0000_0000

  datatype Keyspace = Keyspace(
    base: Table,
    next: Option<Table>,
    rehashIndex: nat,
    len: int,
    mayHoldDeadlines: bool,
    usedBytes: int,
    withDeadline: int,
    clock: nat)

  function EntryBytes(key: Key, value: seq<byte>): nat
  {
    ENTRY_OVERHEAD + |key| + |value|
  }

  function SlotBytes(slot: Slot): nat
  {
    EntryBytes(slot.key, slot.entry.value)
  }

  function Dated(deadline: Option<Instant>): nat
  {
    if deadline.Some? then 1 else 0
  }

  function SlotDated(slot: Slot): nat
  {
    Dated(slot.entry.expiresAt)
  }

  function TableBytes(buckets: nat): nat
  {
    buckets * BUCKET_OVERHEAD
  }

  // ---------- Operations ----------

  /** The sizes of the tables and where the migration stands. */
  predicate Shape(s: Keyspace)
  {
    && |s.base| > 0
    && (s.next.Some? ==> |s.next.value| == 2 * |s.base| && s.rehashIndex < |s.base|)
    && (s.next.None? ==> s.rehashIndex == 0)
  }

  function New(): Keyspace
  {
    Keyspace(EmptyTable(INITIAL_BUCKETS), None, 0, 0, false, TableBytes(INITIAL_BUCKETS), 0, 0)
  }

  function Get(s: Keyspace, h: Hasher, key: Key): Option<Entry>
    requires Shape(s)
  {
    if Find(s.base, h(key), key).Some? then Find(s.base, h(key), key)
    else if s.next.Some? then Find(s.next.value, h(key), key)
    else None
  }

  /** Drains the buckets `from..end` of the old table into the new one, in order. */
  function Migrate(base: Table, next: Table, from: nat, end: nat): (r: (Table, Table))
    requires from <= end <= |base| && |next| > 0
    ensures |r.0| == |base| && |r.1| == |next|
    decreases end
  {
    if from == end then (base, next)
    else
      var (o, n) := Migrate(base, next, from, end - 1);
      (o[end - 1 := []], PushAll(n, o[end - 1]))
  }

  function StartRehash(s: Keyspace): Keyspace
    requires Shape(s) && s.next.None?
  {
    s.(next := Some(EmptyTable(2 * |s.base|)),
       usedBytes := s.usedBytes + TableBytes(2 * |s.base|),
       rehashIndex := 0)
  }

  function RehashEnd(s: Keyspace, buckets: nat): nat
  {
    if s.rehashIndex + buckets <= |s.base| then s.rehashIndex + buckets else |s.base|
  }

  function RehashStep(s: Keyspace, buckets: nat): (r: Keyspace)
    requires Shape(s)
    ensures Shape(r)
  {
    if s.next.None? then s
    else
      var end := RehashEnd(s, buckets);
      var (o, n) := Migrate(s.base, s.next.value, s.rehashIndex, end);
      if end == |s.base| then
        s.(base := n, next := None, rehashIndex := 0, usedBytes := s.usedBytes - TableBytes(|s.base|))
      else
        s.(base := o, next := Some(n), rehashIndex := end)
  }

  /** What an insert does to the tables before it stores anything. */
  function Prepare(s: Keyspace): (r: Keyspace)
    requires Shape(s)
    ensures Shape(r)
  {
    if s.next.Some? then RehashStep(s, 1)
    else if s.len >= |s.base| then StartRehash(s)
    else s
  }

  /** Overwrites `key` where it is, or pushes it into the table that survives. */
  function Store(s: Keyspace, h: Hasher, key: Key, entry: Entry): (r: Keyspace)
    requires Shape(s)
    ensures Shape(r)
  {
    var hash := h(key);
    var may := s.mayHoldDeadlines || entry.expiresAt.Some?;
    match Get(s, h, key)
    case Some(existing) =>
      var s' := Overwrite(s, h, key, entry);
      s'.(mayHoldDeadlines := may,
          usedBytes := s.usedBytes - EntryBytes(key, existing.value) + EntryBytes(key, entry.value),
          withDeadline := s.withDeadline + Dated(entry.expiresAt) - Dated(existing.expiresAt))
    case None =>
      var s' := if s.next.Some? then s.(next := Some(Push(s.next.value, Slot(hash, key, entry))))
                else s.(base := Push(s.base, Slot(hash, key, entry)));
      s'.(mayHoldDeadlines := may,
          usedBytes := s.usedBytes + EntryBytes(key, entry.value),
          withDeadline := s.withDeadline + Dated(entry.expiresAt),
          len := s.len + 1)
  }

  /** Replaces the entry of a key that is there, in whichever table holds it. */
  function Overwrite(s: Keyspace, h: Hasher, key: Key, entry: Entry): (r: Keyspace)
    requires Shape(s) && Get(s, h, key).Some?
    ensures Shape(r)
  {
    if Find(s.base, h(key), key).Some? then s.(base := Replace(s.base, h(key), key, entry))
    else s.(next := Some(Replace(s.next.value, h(key), key, entry)))
  }

  function Insert(s: Keyspace, h: Hasher, key: Key, entry: Entry): (r: Keyspace)
    requires Shape(s)
    ensures Shape(r)
  {
    Store(Prepare(s), h, key, entry)
  }

  /** Takes out a key that is there, and settles the counters it moved. */
  function TakeOut(s: Keyspace, h: Hasher, key: Key): (r: Keyspace)
    requires Shape(s) && Get(s, h, key).Some?
    ensures Shape(r)
  {
    var removed := Get(s, h, key).value;
    var s' := if Find(s.base, h(key), key).Some? then s.(base := RemoveFrom(s.base, h(key), key))
              else s.(next := Some(RemoveFrom(s.next.value, h(key), key)));
    s'.(usedBytes := s.usedBytes - EntryBytes(key, removed.value),
        withDeadline := s.withDeadline - Dated(removed.expiresAt),
        len := s.len - 1,
        mayHoldDeadlines := s.mayHoldDeadlines && s.len != 1)
  }

  function Remove(s: Keyspace, h: Hasher, key: Key): (r: Keyspace)
    requires Shape(s)
    ensures Shape(r)
  {
    var s' := RehashStep(s, 1);
    if Get(s', h, key).Some? then TakeOut(s', h, key) else s'
  }

  function SetDeadline(s: Keyspace, h: Hasher, key: Key, deadline: Option<Instant>): (r: Keyspace)
    requires Shape(s)
    ensures Shape(r)
  {
    var s' := s.(mayHoldDeadlines := s.mayHoldDeadlines || deadline.Some?);
    match Get(s', h, key)
    case None => s'
    case Some(entry) =>
      Overwrite(s', h, key, entry.(expiresAt := deadline)).(
        withDeadline := s.withDeadline + Dated(deadline) - Dated(entry.expiresAt))
  }

  function Touch(s: Keyspace, h: Hasher, key: Key): (r: Keyspace)
    requires Shape(s)
    ensures Shape(r)
  {
    var s' := s.(clock := (s.clock + 1) % CLOCK_MODULUS);
    match Get(s', h, key)
    case None => s'
    case Some(entry) => Overwrite(s', h, key, entry.(touched := s'.clock))
  }

  // ---------- Well-formedness ----------

  function Keys(t: Table): set<Key>
  {
    set i, j | 0 <= i < |t| && 0 <= j < |t[i]| :: t[i][j].key
  }

  lemma FoundIsListed(s: Keyspace, h: Hasher)
    requires Shape(s)
    ensures forall k :: Get(s, h, k).Some? ==>
              k in Keys(s.base) || (s.next.Some? && k in Keys(s.next.value))
  {
    hide Keys, Tables.Find;
    forall k | Get(s, h, k).Some?
      ensures k in Keys(s.base) || (s.next.Some? && k in Keys(s.next.value))
    {
      if Find(s.base, h(k), k).Some? {
        FindIsListed(s.base, h(k), k);
      } else {
        FindIsListed(s.next.value, h(k), k);
      }
    }
  }

  lemma FindIsListed(t: Table, hash: Word, key: Key)
    requires |t| > 0 && Find(t, hash, key).Some?
    ensures key in Keys(t)
  {
    var i := BucketIndex(hash, |t|);
    var j := IndexOf(t[i], hash, key).value;
    assert t[i][j].key == key;
  }

  /** The plain map a keyspace stands for. */
  ghost function Contents(s: Keyspace, h: Hasher): (m: map<Key, Entry>)
    requires Shape(s)
    ensures forall k :: k in m <==> Get(s, h, k).Some?
    ensures forall k :: k in m ==> m[k] == Get(s, h, k).value
  {
    var keys := Keys(s.base) + (if s.next.Some? then Keys(s.next.value) else {});
    FoundIsListed(s, h);
    map k | k in keys && Get(s, h, k).Some? :: Get(s, h, k).value
  }

  /** Every slot is where its stored hash says, no key is in both tables, and what has been
      migrated stays drained. */
  ghost predicate Placed(s: Keyspace, h: Hasher)
    ensures Placed(s, h) ==> Shape(s)
  {
    && Shape(s)
    && |s.base| >= INITIAL_BUCKETS
    && TableOk(s.base, h)
    && (s.next.Some? ==> TableOk(s.next.value, h) && Disjoint(s.base, s.next.value, h))
    && forall i :: 0 <= i < s.rehashIndex ==> s.base[i] == []
  }

  ghost predicate Disjoint(a: Table, b: Table, h: Hasher)
    requires |a| > 0 && |b| > 0
  {
    forall k :: Find(a, h(k), k).None? || Find(b, h(k), k).None?
  }

  /** A full recount of `f` over both tables. */
  function Recount(s: Keyspace, f: Slot -> nat): nat
  {
    TableTotal(s.base, f) + (if s.next.Some? then TableTotal(s.next.value, f) else 0)
  }

  function TablesBytes(s: Keyspace): nat
  {
    TableBytes(|s.base|) + (if s.next.Some? then TableBytes(|s.next.value|) else 0)
  }

  /** The running figures equal what a recount would give. */
  ghost predicate Counted(s: Keyspace, h: Hasher)
    requires Shape(s)
  {
    && s.len == |Contents(s, h)|
    && s.usedBytes == TablesBytes(s) + Recount(s, SlotBytes)
    && s.withDeadline == Recount(s, SlotDated)
    && (s.mayHoldDeadlines || s.withDeadline == 0)
  }

  /** The load stays near one: at most one entry over a bucket each per doubling so far, and
      during a migration at most one more per bucket already migrated. */
  predicate Loaded(s: Keyspace)
  {
    var doublings := Log2(|s.base|) - 3;
    if s.next.None? then s.len <= |s.base| + doublings
    else s.len <= |s.base| + doublings + 1 + s.rehashIndex
  }

  ghost predicate Valid(s: Keyspace, h: Hasher)
    ensures Valid(s, h) ==> Placed(s, h)
  {
    Placed(s, h) && Counted(s, h) && Loaded(s)
  }
}
