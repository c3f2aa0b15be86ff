/**
 The keyspace refines a plain map: every operation keeps it well formed, with exact counters
 and a bounded load, and does to the map what its name says. Migration does nothing to it.
 */
module KeyspaceProofs {
  import opened Basics
  import opened Words
  import opened Cursors
  import opened Tables
  import opened Keyspaces

  // ---------- Migration ----------

  /** What a pair of tables holds for a key, the first table winning. */
  function Either(a: Table, b: Table, h: Hasher, k: Key): Option<Entry>
    requires |a| > 0 && |b| > 0
  {
    if Find(a, h(k), k).Some? then Find(a, h(k), k) else Find(b, h(k), k)
  }

  /** Pushing a whole chain into a table that holds none of its keys. */
  lemma {:induction false} PushAllFinds(t: Table, h: Hasher, chain: Bucket, i: nat, buckets: nat)
    requires TableOk(t, h)
    requires buckets > 0 && BucketOk(chain, i, buckets, h)
    requires forall j :: 0 <= j < |chain| ==> Find(t, chain[j].hash, chain[j].key).None?
    ensures TableOk(PushAll(t, chain), h)
    ensures forall k :: Find(PushAll(t, chain), h(k), k)
                     == if Held(chain, h(k), k).Some? then Held(chain, h(k), k) else Find(t, h(k), k)
    decreases |chain|
  {
    if chain != [] {
      var n := |chain| - 1;
      var init, last := chain[..n], chain[n];
      assert chain == init + [last];
      PushAllFinds(t, h, init, i, buckets);
      assert Held(init, last.hash, last.key).None?;
      PushFinds(PushAll(t, init), h, last);
      forall k ensures Find(PushAll(t, chain), h(k), k)
                    == if Held(chain, h(k), k).Some? then Held(chain, h(k), k) else Find(t, h(k), k) {
        PushHeld(init, i, buckets, h, last, k);
      }
    }
  }

  /** A pair of tables that stands for what another pair does. */
  ghost predicate Migrated(a: Table, b: Table, a': Table, b': Table, h: Hasher)
    ensures Migrated(a, b, a', b', h) ==> |a'| > 0 && |b'| > 0
  {
    && |a| > 0 && |b| > 0
    && TableOk(a', h) && TableOk(b', h) && Disjoint(a', b', h)
    && forall k :: Either(a', b', h, k) == Either(a, b, h, k)
  }

  /** Migrating one bucket changes what the pair holds for no key. */
  lemma MigrateOne(a: Table, b: Table, h: Hasher, i: nat)
    requires TableOk(a, h) && TableOk(b, h) && Disjoint(a, b, h) && i < |a|
    ensures Migrated(a, b, a[i := []], PushAll(b, a[i]), h)
  {
    hide Tables.PushAll, Tables.Find, Tables.TableOk, Tables.Held, Tables.BucketOk;
    DrainFinds(a, h, i);
    AbsentElsewhere(a, b, h, i);
    PushAllFinds(b, h, a[i], i, |a|);
  }

  /** Draining a bucket forgets exactly the keys its chain held. */
  lemma DrainFinds(a: Table, h: Hasher, i: nat)
    requires TableOk(a, h) && i < |a|
    ensures TableOk(a[i := []], h) && BucketOk(a[i], i, |a|, h)
    ensures forall k :: Find(a, h(k), k)
                     == if Held(a[i], h(k), k).Some? then Held(a[i], h(k), k) else Find(a[i := []], h(k), k)
    ensures forall k :: Held(a[i], h(k), k).Some? ==> Find(a[i := []], h(k), k).None?
  {
    hide Words.Log2, Words.PowerOfTwo, Cursors.BucketIndex;
    var chain := a[i];
    assert BucketOk(chain, i, |a|, h);
    forall k
      ensures Find(a, h(k), k) == if Held(chain, h(k), k).Some? then Held(chain, h(k), k) else Find(a[i := []], h(k), k)
      ensures Held(chain, h(k), k).Some? ==> Find(a[i := []], h(k), k).None?
    {
      if BucketIndex(h(k), |a|) != i {
        NotInChain(chain, i, |a|, h, k);
      }
    }
  }

  lemma AbsentElsewhere(a: Table, b: Table, h: Hasher, i: nat)
    requires TableOk(a, h) && |b| > 0 && Disjoint(a, b, h) && i < |a|
    ensures forall j :: 0 <= j < |a[i]| ==> Find(b, a[i][j].hash, a[i][j].key).None?
  {
    hide Words.Log2, Words.PowerOfTwo, Cursors.BucketIndex;
    var chain := a[i];
    assert BucketOk(chain, i, |a|, h);
    forall j | 0 <= j < |chain| ensures Find(b, chain[j].hash, chain[j].key).None? {
      HeldAt(chain, i, |a|, h, j);
      assert Find(a, h(chain[j].key), chain[j].key).Some?;
    }
  }

  lemma NotInChain(chain: Bucket, i: nat, buckets: nat, h: Hasher, k: Key)
    requires buckets > 0 && BucketOk(chain, i, buckets, h) && BucketIndex(h(k), buckets) != i
    ensures Held(chain, h(k), k).None?
  {
  }

  /** Migrating any range of buckets changes what the pair holds for no key. */
  lemma {:induction false} MigrateKeeps(a: Table, b: Table, h: Hasher, from: nat, end: nat)
    requires TableOk(a, h) && TableOk(b, h) && Disjoint(a, b, h) && from <= end <= |a|
    ensures var (a', b') := Migrate(a, b, from, end);
            Migrated(a, b, a', b', h)
    decreases end
  {
    hide Tables.Find, Tables.TableOk, Tables.PushAll, Either, Keyspaces.Disjoint;
    if from < end {
      MigrateKeeps(a, b, h, from, end - 1);
      var (o, n) := Migrate(a, b, from, end - 1);
      MigrateOne(o, n, h, end - 1);
    }
  }

  /** A migration drains exactly its range. */
  lemma {:induction false} MigrateDrains(a: Table, b: Table, from: nat, end: nat)
    requires |b| > 0 && from <= end <= |a|
    ensures forall i :: from <= i < end ==> Migrate(a, b, from, end).0[i] == []
    ensures forall i :: 0 <= i < from || end <= i < |a| ==> Migrate(a, b, from, end).0[i] == a[i]
    decreases end
  {
    hide Tables.PushAll;
    if from < end {
      MigrateDrains(a, b, from, end - 1);
      var o, a' := Migrate(a, b, from, end - 1).0, Migrate(a, b, from, end).0;
      assert a' == o[end - 1 := []];
      assert forall i :: 0 <= i < |a| && i != end - 1 ==> a'[i] == o[i];
    }
  }

  lemma {:induction false} MigrateTotal(a: Table, b: Table, from: nat, end: nat, f: Slot -> nat)
    requires |b| > 0 && from <= end <= |a|
    ensures var (a', b') := Migrate(a, b, from, end);
            TableTotal(a', f) + TableTotal(b', f) == TableTotal(a, f) + TableTotal(b, f)
    decreases end
  {
    hide Tables.PushAll, Tables.TableTotal, Tables.Total;
    if from < end {
      MigrateTotal(a, b, from, end - 1, f);
      var (o, n) := Migrate(a, b, from, end - 1);
      TableTotalUpdate(o, f, end - 1, []);
      PushAllTotal(n, f, o[end - 1]);
      NothingTotals(f);
    }
  }

  lemma NothingTotals(f: Slot -> nat)
    ensures Total([], f) == 0
  {
  }

  // ---------- Powers of two under doubling ----------

  lemma Log2Doubles(n: nat)
    requires PowerOfTwo(n)
    ensures PowerOfTwo(2 * n) && Log2(2 * n) == Log2(n) + 1
  {
    Log2OfPow2(Log2(n) + 1);
  }

  lemma MaxLenBits()
    ensures Pow2(MAX_BUCKET_BITS - 1) == MAX_LEN
  {
    assert Pow2(3) == 8 && Pow2(4) == 16;
    Pow2Sum(4, 4);
    Pow2Sum(8, 8);
    Pow2Sum(16, 16);
    Pow2Sum(8, 4);
    Pow2Sum(12, 3);
    Pow2Sum(32, 15);
  }

  lemma Log2Below(n: nat)
    requires PowerOfTwo(n) && n < MAX_LEN
    ensures Log2(n) < MAX_BUCKET_BITS - 1
  {
    hide Words.Pow2, Words.Log2;
    MaxLenBits();
    if Log2(n) >= MAX_BUCKET_BITS - 1 {
      Pow2Monotone(MAX_BUCKET_BITS - 1, Log2(n));
    }
  }

  lemma Log2AtLeast3(n: nat)
    requires PowerOfTwo(n) && n >= INITIAL_BUCKETS
    ensures Log2(n) >= 3
  {
    if Log2(n) < 3 {
      Pow2Monotone(Log2(n), 2);
    }
  }

  lemma InitialLog2()
    ensures Log2(INITIAL_BUCKETS) == 3 && PowerOfTwo(INITIAL_BUCKETS)
  {
  }

  // ---------- Each step ----------

  lemma NewValid(h: Hasher)
    ensures Valid(New(), h) && Contents(New(), h) == map[]
  {
    InitialLog2();
    var s := New();
    EmptyTotal(s.base, SlotBytes);
    EmptyTotal(s.base, SlotDated);
    forall k ensures Get(s, h, k).None? {
    }
  }

  /** Two keyspaces that answer every lookup alike stand for one map. */
  lemma SameContents(s: Keyspace, s': Keyspace, h: Hasher)
    requires Shape(s) && Shape(s')
    requires forall k :: Get(s', h, k) == Get(s, h, k)
    ensures Contents(s', h) == Contents(s, h)
  {
    hide Keyspaces.Get, Keyspaces.Contents;
    forall k ensures k in Contents(s', h) <==> k in Contents(s, h) {
      assert Get(s', h, k) == Get(s, h, k);
    }
  }

  lemma BoundContents(s: Keyspace, s': Keyspace, h: Hasher, key: Key, entry: Entry)
    requires Shape(s) && Shape(s')
    requires forall k :: Get(s', h, k) == if k == key then Some(entry) else Get(s, h, k)
    ensures Contents(s', h) == Contents(s, h)[key := entry]
    ensures |Contents(s', h)| == |Contents(s, h)| + if Get(s, h, key).Some? then 0 else 1
  {
    hide Keyspaces.Get, Keyspaces.Contents;
    var m, m' := Contents(s, h), Contents(s', h);
    forall k ensures k in m' <==> k in m[key := entry] {
      assert Get(s', h, k) == if k == key then Some(entry) else Get(s, h, k);
    }
    assert m' == m[key := entry];
    assert m'.Keys == m.Keys + {key};
  }

  lemma UnboundContents(s: Keyspace, s': Keyspace, h: Hasher, key: Key)
    requires Shape(s) && Shape(s') && Get(s, h, key).Some?
    requires forall k :: Get(s', h, k) == if k == key then None else Get(s, h, k)
    ensures Contents(s', h) == Contents(s, h) - {key}
    ensures |Contents(s', h)| == |Contents(s, h)| - 1
  {
    hide Keyspaces.Get, Keyspaces.Contents;
    var m, m' := Contents(s, h), Contents(s', h);
    forall k ensures k in m' <==> k in m - {key} {
      assert Get(s', h, k) == if k == key then None else Get(s, h, k);
    }
    assert m' == m - {key};
    assert m'.Keys == m.Keys - {key};
  }

  /** Placement, lookup, map and recounts are all read off the tables. */
  lemma SameTables(s: Keyspace, s': Keyspace, h: Hasher)
    requires s'.base == s.base && s'.next == s.next && s'.rehashIndex == s.rehashIndex
    ensures Shape(s') == Shape(s) && Placed(s', h) == Placed(s, h)
    ensures Shape(s) ==> forall k :: Get(s', h, k) == Get(s, h, k)
    ensures Shape(s) ==> Contents(s', h) == Contents(s, h)
    ensures Recount(s', SlotBytes) == Recount(s, SlotBytes) && Recount(s', SlotDated) == Recount(s, SlotDated)
    ensures TablesBytes(s') == TablesBytes(s)
  {
    hide Tables.Find, Tables.TableOk, Tables.TableTotal;
  }

  lemma OverwriteFrame(s: Keyspace, h: Hasher, key: Key, entry: Entry)
    requires Shape(s) && Get(s, h, key).Some?
    ensures var o := Overwrite(s, h, key, entry);
            && o.(base := s.base, next := s.next) == s
            && |o.base| == |s.base|
            && (o.next.Some? <==> s.next.Some?)
  {
  }

  /** A migration step, of any size, keeps the keyspace valid and its map unchanged. */
  lemma RehashKeeps(s: Keyspace, h: Hasher, buckets: nat)
    requires Valid(s, h)
    ensures Valid(RehashStep(s, buckets), h)
    ensures Contents(RehashStep(s, buckets), h) == Contents(s, h)
  {
    hide Tables.TableTotal, Tables.TableOk, Keyspaces.Get, Keyspaces.RehashStep;
    if s.next.Some? {
      RehashPlaces(s, h, buckets);
      SameContents(s, RehashStep(s, buckets), h);
      RehashRecounts(s, h, buckets);
      RehashLoads(s, h, buckets);
    } else {
      RehashNothing(s, buckets);
    }
  }

  lemma RehashNothing(s: Keyspace, buckets: nat)
    requires Shape(s) && s.next.None?
    ensures RehashStep(s, buckets) == s
  {
  }

  /** A migration step moves no count but the bytes of a table it is done with. */
  lemma RehashRecounts(s: Keyspace, h: Hasher, buckets: nat)
    requires Placed(s, h) && s.next.Some?
    ensures var s' := RehashStep(s, buckets);
            && Recount(s', SlotBytes) == Recount(s, SlotBytes)
            && Recount(s', SlotDated) == Recount(s, SlotDated)
            && s'.usedBytes - TablesBytes(s') == s.usedBytes - TablesBytes(s)
            && s'.withDeadline == s.withDeadline
            && s'.mayHoldDeadlines == s.mayHoldDeadlines
            && s'.len == s.len
  {
    hide Tables.TableTotal, Tables.TableOk, Keyspaces.Disjoint, Tables.Find, Keyspaces.Migrate, Either;
    var end := RehashEnd(s, buckets);
    var (o, n) := Migrate(s.base, s.next.value, s.rehashIndex, end);
    MigrateDrains(s.base, s.next.value, s.rehashIndex, end);
    MigrateTotal(s.base, s.next.value, s.rehashIndex, end, SlotBytes);
    MigrateTotal(s.base, s.next.value, s.rehashIndex, end, SlotDated);
    if end == |s.base| {
      EmptyTotal(o, SlotBytes);
      EmptyTotal(o, SlotDated);
    }
  }

  lemma RehashLoads(s: Keyspace, h: Hasher, buckets: nat)
    requires Placed(s, h) && s.next.Some? && Loaded(s)
    ensures Loaded(RehashStep(s, buckets))
    ensures buckets > 0 ==> Loaded(RehashStep(s, buckets).(len := s.len + 1))
  {
    hide Keyspaces.Migrate, Words.Log2, Words.PowerOfTwo;
    Log2Doubles(|s.base|);
  }

  lemma RehashPlaces(s: Keyspace, h: Hasher, buckets: nat)
    requires Placed(s, h) && s.next.Some?
    ensures Placed(RehashStep(s, buckets), h)
    ensures forall k :: Get(RehashStep(s, buckets), h, k) == Get(s, h, k)
  {
    var end := RehashEnd(s, buckets);
    var (o, n) := Migrate(s.base, s.next.value, s.rehashIndex, end);
    MigrateKeeps(s.base, s.next.value, h, s.rehashIndex, end);
    MigrateDrains(s.base, s.next.value, s.rehashIndex, end);
    if end == |s.base| {
      forall k ensures Find(o, h(k), k).None? {
        assert o[BucketIndex(h(k), |o|)] == [];
      }
    }
    forall k ensures Get(RehashStep(s, buckets), h, k) == Get(s, h, k) {
      assert Either(o, n, h, k) == Either(s.base, s.next.value, h, k);
    }
  }

  // ---------- Overwriting, pushing and taking out ----------

  lemma OverwritePlaces(s: Keyspace, h: Hasher, key: Key, entry: Entry)
    requires Placed(s, h) && Get(s, h, key).Some?
    ensures Placed(Overwrite(s, h, key, entry), h)
    ensures forall k :: Get(Overwrite(s, h, key, entry), h, k) == if k == key then Some(entry) else Get(s, h, k)
  {
    hide Tables.TableOk, Tables.Find, Tables.Replace;
    if Find(s.base, h(key), key).Some? {
      ReplaceFinds(s.base, h, key, entry);
    } else {
      ReplaceFinds(s.next.value, h, key, entry);
    }
  }

  lemma OverwriteRecounts(s: Keyspace, h: Hasher, key: Key, entry: Entry, f: Slot -> nat)
    requires Shape(s) && Get(s, h, key).Some?
    ensures Recount(Overwrite(s, h, key, entry), f) + f(Slot(h(key), key, Get(s, h, key).value))
         == Recount(s, f) + f(Slot(h(key), key, entry))
    ensures TablesBytes(Overwrite(s, h, key, entry)) == TablesBytes(s)
  {
    if Find(s.base, h(key), key).Some? {
      ReplaceTotal(s.base, f, h(key), key, entry);
    } else {
      ReplaceTotal(s.next.value, f, h(key), key, entry);
    }
  }

  /** The keyspace with a new slot in the table that survives a migration. */
  function Pushed(s: Keyspace, slot: Slot): (r: Keyspace)
    requires Shape(s)
    ensures Shape(r)
  {
    if s.next.Some? then s.(next := Some(Push(s.next.value, slot))) else s.(base := Push(s.base, slot))
  }

  lemma PushedPlaces(s: Keyspace, h: Hasher, key: Key, entry: Entry)
    requires Placed(s, h) && Get(s, h, key).None?
    ensures var s' := Pushed(s, Slot(h(key), key, entry));
            && Placed(s', h)
            && forall k :: Get(s', h, k) == if k == key then Some(entry) else Get(s, h, k)
  {
    var slot := Slot(h(key), key, entry);
    if s.next.Some? {
      PushFinds(s.next.value, h, slot);
    } else {
      PushFinds(s.base, h, slot);
    }
  }

  lemma PushedRecounts(s: Keyspace, slot: Slot, f: Slot -> nat)
    requires Shape(s)
    ensures Recount(Pushed(s, slot), f) == Recount(s, f) + f(slot)
    ensures TablesBytes(Pushed(s, slot)) == TablesBytes(s)
  {
    if s.next.Some? {
      PushTotal(s.next.value, f, slot);
    } else {
      PushTotal(s.base, f, slot);
    }
  }

  lemma TakeOutPlaces(s: Keyspace, h: Hasher, key: Key)
    requires Placed(s, h) && Get(s, h, key).Some?
    ensures Placed(TakeOut(s, h, key), h)
    ensures forall k :: Get(TakeOut(s, h, key), h, k) == if k == key then None else Get(s, h, k)
  {
    hide Tables.TableOk, Tables.Find, Tables.RemoveFrom;
    if Find(s.base, h(key), key).Some? {
      RemoveFinds(s.base, h, key);
    } else {
      RemoveFinds(s.next.value, h, key);
    }
  }

  lemma TakeOutRecounts(s: Keyspace, h: Hasher, key: Key, f: Slot -> nat)
    requires Shape(s) && Get(s, h, key).Some?
    ensures Recount(TakeOut(s, h, key), f) + f(Slot(h(key), key, Get(s, h, key).value)) == Recount(s, f)
    ensures TablesBytes(TakeOut(s, h, key)) == TablesBytes(s)
  {
    if Find(s.base, h(key), key).Some? {
      RemoveTotal(s.base, f, h(key), key);
    } else {
      RemoveTotal(s.next.value, f, h(key), key);
    }
  }

  /** An empty map leaves nothing in the tables to count. */
  lemma NothingToCount(s: Keyspace, h: Hasher, f: Slot -> nat)
    requires Placed(s, h) && |Contents(s, h)| == 0
    ensures Recount(s, f) == 0
  {
    forall k ensures Get(s, h, k).None? {
      assert k !in Contents(s, h);
    }
    NothingFound(s, h);
    NoKeysNoSlots(s.base, h);
    EmptyTotal(s.base, f);
    if s.next.Some? {
      NoKeysNoSlots(s.next.value, h);
      EmptyTotal(s.next.value, f);
    }
  }

  lemma NothingFound(s: Keyspace, h: Hasher)
    requires Shape(s) && forall k :: Get(s, h, k).None?
    ensures forall k :: Find(s.base, h(k), k).None?
    ensures s.next.Some? ==> forall k :: Find(s.next.value, h(k), k).None?
  {
    hide Tables.Find;
    forall k ensures Find(s.base, h(k), k).None? && (s.next.Some? ==> Find(s.next.value, h(k), k).None?) {
      assert Get(s, h, k).None?;
    }
  }

  lemma NoKeysNoSlots(t: Table, h: Hasher)
    requires TableOk(t, h) && forall k :: Find(t, h(k), k).None?
    ensures forall i :: 0 <= i < |t| ==> t[i] == []
  {
    forall i | 0 <= i < |t| ensures t[i] == [] {
      assert BucketOk(t[i], i, |t|, h);
      if t[i] != [] {
        HeldAt(t[i], i, |t|, h, 0);
      }
    }
  }

  // ---------- The operations ----------

  /** What an insert does first changes no entry, and leaves room for one more. */
  lemma PrepareKeeps(s: Keyspace, h: Hasher)
    requires Valid(s, h) && s.len < MAX_LEN
    ensures Valid(Prepare(s), h) && Contents(Prepare(s), h) == Contents(s, h)
    ensures Loaded(Prepare(s).(len := s.len + 1))
  {
    hide Keyspaces.Counted, Keyspaces.Contents, Keyspaces.RehashStep, Keyspaces.StartRehash, Words.Log2,
         Words.PowerOfTwo;
    if s.next.Some? {
      RehashKeeps(s, h, 1);
      RehashLoads(s, h, 1);
    } else if s.len >= |s.base| {
      StartKeeps(s, h);
    } else {
      Log2AtLeast3(|s.base|);
    }
  }

  lemma StartKeeps(s: Keyspace, h: Hasher)
    requires Valid(s, h) && s.next.None? && |s.base| <= s.len < MAX_LEN
    ensures Valid(StartRehash(s), h) && Contents(StartRehash(s), h) == Contents(s, h)
    ensures Loaded(StartRehash(s).(len := s.len + 1))
  {
    hide Words.Log2, Words.PowerOfTwo, Tables.TableTotal, Keyspaces.Placed;
    var s' := StartRehash(s);
    StartPlaces(s, h);
    EmptyTotal(s'.next.value, SlotBytes);
    EmptyTotal(s'.next.value, SlotDated);
    SameContents(s, s', h);
  }

  lemma StartPlaces(s: Keyspace, h: Hasher)
    requires Placed(s, h) && s.next.None? && |s.base| < MAX_LEN
    ensures Placed(StartRehash(s), h)
    ensures forall k :: Get(StartRehash(s), h, k) == Get(s, h, k)
  {
    hide Words.Log2, Words.PowerOfTwo;
    Log2Below(|s.base|);
    Log2Doubles(|s.base|);
  }

  /** Storing a key binds it in the map and changes nothing else. */
  lemma StoreRefines(s: Keyspace, h: Hasher, key: Key, entry: Entry)
    requires Placed(s, h) && Counted(s, h) && Loaded(s) && Loaded(s.(len := s.len + 1))
    ensures Valid(Store(s, h, key, entry), h)
    ensures Contents(Store(s, h, key, entry), h) == Contents(s, h)[key := entry]
  {
    var s' := Store(s, h, key, entry);
    if Get(s, h, key).Some? {
      StoreOver(s, h, key, entry);
    } else {
      StoreFresh(s, h, key, entry);
    }
  }

  lemma StoreOver(s: Keyspace, h: Hasher, key: Key, entry: Entry)
    requires Placed(s, h) && Counted(s, h) && Loaded(s) && Get(s, h, key).Some?
    ensures Valid(Store(s, h, key, entry), h)
    ensures Contents(Store(s, h, key, entry), h) == Contents(s, h)[key := entry]
  {
    hide Tables.TableTotal, Tables.TableOk, Tables.Find, Keyspaces.Get, Keyspaces.Placed, Keyspaces.Contents,
         Keyspaces.Recount, Keyspaces.TablesBytes, Keyspaces.Overwrite, Words.Log2;
    var o := Overwrite(s, h, key, entry);
    var s' := Store(s, h, key, entry);
    OverwriteFrame(s, h, key, entry);
    OverwritePlaces(s, h, key, entry);
    OverwriteRecounts(s, h, key, entry, SlotBytes);
    OverwriteRecounts(s, h, key, entry, SlotDated);
    SameTables(o, s', h);
    BoundContents(s, s', h, key, entry);
  }

  lemma StoreFresh(s: Keyspace, h: Hasher, key: Key, entry: Entry)
    requires Placed(s, h) && Counted(s, h) && Loaded(s.(len := s.len + 1)) && Get(s, h, key).None?
    ensures Valid(Store(s, h, key, entry), h)
    ensures Contents(Store(s, h, key, entry), h) == Contents(s, h)[key := entry]
  {
    hide Tables.TableTotal, Tables.TableOk, Tables.Find, Keyspaces.Get, Keyspaces.Placed, Keyspaces.Contents,
         Keyspaces.Recount, Keyspaces.TablesBytes, Keyspaces.Overwrite, Tables.Push, Words.Log2;
    var slot := Slot(h(key), key, entry);
    var o := Pushed(s, slot);
    var s' := Store(s, h, key, entry);
    PushedPlaces(s, h, key, entry);
    PushedRecounts(s, slot, SlotBytes);
    PushedRecounts(s, slot, SlotDated);
    SameTables(o, s', h);
    BoundContents(s, s', h, key, entry);
  }

  lemma InsertRefines(s: Keyspace, h: Hasher, key: Key, entry: Entry)
    requires Valid(s, h) && s.len < MAX_LEN
    ensures Valid(Insert(s, h, key, entry), h)
    ensures Contents(Insert(s, h, key, entry), h) == Contents(s, h)[key := entry]
  {
    hide Keyspaces.Prepare, Keyspaces.Store, Keyspaces.Contents;
    PrepareKeeps(s, h);
    PrepareLen(s);
    StoreRefines(Prepare(s), h, key, entry);
  }

  lemma PrepareLen(s: Keyspace)
    requires Shape(s)
    ensures Prepare(s).len == s.len
  {
  }

  lemma TakeOutRefines(s: Keyspace, h: Hasher, key: Key)
    requires Valid(s, h) && Get(s, h, key).Some?
    ensures Valid(TakeOut(s, h, key), h)
    ensures Contents(TakeOut(s, h, key), h) == Contents(s, h) - {key}
  {
    hide Tables.TableTotal, Tables.TableOk, Tables.Find, Keyspaces.Get, Keyspaces.Placed, Keyspaces.Contents,
         Keyspaces.Recount, Keyspaces.TablesBytes, Tables.RemoveFrom, Words.Log2;
    var s' := TakeOut(s, h, key);
    TakeOutFrame(s, h, key);
    TakeOutPlaces(s, h, key);
    TakeOutRecounts(s, h, key, SlotBytes);
    TakeOutRecounts(s, h, key, SlotDated);
    UnboundContents(s, s', h, key);
    if s'.len == 0 {
      NothingToCount(s', h, SlotDated);
    }
  }

  lemma TakeOutFrame(s: Keyspace, h: Hasher, key: Key)
    requires Shape(s) && Get(s, h, key).Some?
    ensures var o := TakeOut(s, h, key);
            && |o.base| == |s.base|
            && (o.next.Some? <==> s.next.Some?)
            && o.rehashIndex == s.rehashIndex
  {
  }

  lemma RemoveRefines(s: Keyspace, h: Hasher, key: Key)
    requires Valid(s, h)
    ensures Valid(Remove(s, h, key), h)
    ensures Contents(Remove(s, h, key), h) == Contents(s, h) - {key}
  {
    hide Keyspaces.RehashStep, Keyspaces.TakeOut, Keyspaces.Get;
    RehashKeeps(s, h, 1);
    var s' := RehashStep(s, 1);
    if Get(s', h, key).Some? {
      TakeOutRefines(s', h, key);
    } else {
      assert Contents(s', h) - {key} == Contents(s', h);
    }
  }

  /** The map with the deadline of `key`, if it is there, replaced. */
  ghost function Redated(m: map<Key, Entry>, key: Key, deadline: Option<Instant>): map<Key, Entry>
  {
    if key in m then m[key := m[key].(expiresAt := deadline)] else m
  }

  /** The map with the stamp of `key`, if it is there, replaced. */
  ghost function Stamped(m: map<Key, Entry>, key: Key, stamp: nat): map<Key, Entry>
  {
    if key in m then m[key := m[key].(touched := stamp)] else m
  }

  lemma SetDeadlineRefines(s: Keyspace, h: Hasher, key: Key, deadline: Option<Instant>)
    requires Valid(s, h)
    ensures Valid(SetDeadline(s, h, key, deadline), h)
    ensures Contents(SetDeadline(s, h, key, deadline), h)
         == Redated(Contents(s, h), key, deadline)
  {
    hide Tables.TableTotal, Tables.TableOk, Tables.Find, Keyspaces.Get, Keyspaces.Placed, Keyspaces.Contents,
         Keyspaces.Recount, Keyspaces.TablesBytes, Keyspaces.Overwrite, Words.Log2;
    var flagged := s.(mayHoldDeadlines := s.mayHoldDeadlines || deadline.Some?);
    SameTables(s, flagged, h);
    if Get(s, h, key).Some? {
      var entry := Get(s, h, key).value.(expiresAt := deadline);
      AdjustKeeps(flagged, h, key, entry);
    }
  }

  /** The clock is no part of what a keyspace promises. */
  lemma TickKeeps(s: Keyspace, h: Hasher, clock: nat)
    requires Valid(s, h)
    ensures var s' := s.(clock := clock);
            && Valid(s', h) && Contents(s', h) == Contents(s, h)
            && forall k :: Get(s', h, k) == Get(s, h, k)
  {
    hide Keyspaces.Get, Keyspaces.Placed, Keyspaces.Contents, Keyspaces.Recount, Keyspaces.TablesBytes, Words.Log2;
    SameTables(s, s.(clock := clock), h);
  }

  lemma TouchRefines(s: Keyspace, h: Hasher, key: Key)
    requires Valid(s, h)
    ensures Valid(Touch(s, h, key), h)
    ensures Contents(Touch(s, h, key), h)
         == Stamped(Contents(s, h), key, (s.clock + 1) % CLOCK_MODULUS)
  {
    hide Keyspaces.Get, Keyspaces.Placed, Keyspaces.Counted, Keyspaces.Loaded, Keyspaces.Contents, Keyspaces.Overwrite;
    var ticked := s.(clock := (s.clock + 1) % CLOCK_MODULUS);
    TickKeeps(s, h, ticked.clock);
    if Get(s, h, key).Some? {
      var entry := Get(s, h, key).value.(touched := ticked.clock);
      if !s.mayHoldDeadlines {
        FlagIsSound(s, h, key);
      }
      AdjustKeeps(ticked, h, key, entry);
      OverwriteFrame(ticked, h, key, entry);
    }
  }

  /** An entry rewritten in place, its value kept and the deadline count settled. */
  function Adjust(s: Keyspace, h: Hasher, key: Key, entry: Entry): Keyspace
    requires Shape(s) && Get(s, h, key).Some?
  {
    Overwrite(s, h, key, entry).(
      withDeadline := s.withDeadline + Dated(entry.expiresAt) - Dated(Get(s, h, key).value.expiresAt))
  }

  lemma AdjustKeeps(s: Keyspace, h: Hasher, key: Key, entry: Entry)
    requires Valid(s, h) && Get(s, h, key).Some?
    requires entry.value == Get(s, h, key).value.value
    requires entry.expiresAt.Some? ==> s.mayHoldDeadlines
    ensures Valid(Adjust(s, h, key, entry), h)
    ensures Contents(Adjust(s, h, key, entry), h) == Contents(s, h)[key := entry]
  {
    hide Tables.TableTotal, Tables.TableOk, Tables.Find, Keyspaces.Get, Keyspaces.Placed, Keyspaces.Contents,
         Keyspaces.Recount, Keyspaces.TablesBytes, Keyspaces.Overwrite, Words.Log2;
    var o := Overwrite(s, h, key, entry);
    var s' := Adjust(s, h, key, entry);
    OverwriteFrame(s, h, key, entry);
    OverwritePlaces(s, h, key, entry);
    OverwriteRecounts(s, h, key, entry, SlotBytes);
    OverwriteRecounts(s, h, key, entry, SlotDated);
    SameTables(o, s', h);
    BoundContents(s, s', h, key, entry);
  }

  /** When the flag says no entry may carry a deadline, none does. */
  lemma FlagIsSound(s: Keyspace, h: Hasher, key: Key)
    requires Valid(s, h) && !s.mayHoldDeadlines && Get(s, h, key).Some?
    ensures Get(s, h, key).value.expiresAt.None?
  {
    var t := if Find(s.base, h(key), key).Some? then s.base else s.next.value;
    var i := BucketIndex(h(key), |t|);
    ZeroTotal(t, SlotDated, i, IndexOf(t[i], h(key), key).value);
  }
}
