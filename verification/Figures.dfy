/**
 The running figures against the plain map: memory is a fixed price a bucket and, for every key of
 the map, a fixed price and the bytes of key and value; deadlines are the keys that have one.
 */
module Figures {
  import opened Basics
  import opened Words
  import opened Cursors
  import opened Tables
  import opened Keyspaces
  import opened KeyspaceProofs
  import opened Runs

  // ---------- Sums over a set of keys ----------

  /** The sum of a weight over a set, in whatever order. */
  ghost function Weigh(keys: set<Key>, g: Key -> nat): nat
  {
    if keys == {} then 0
    else
      var k :| k in keys;
      g(k) + Weigh(keys - {k}, g)
  }

  lemma {:induction false} WeighTakes(keys: set<Key>, g: Key -> nat, key: Key)
    requires key in keys
    ensures Weigh(keys, g) == g(key) + Weigh(keys - {key}, g)
    decreases |keys|
  {
    var k :| k in keys && Weigh(keys, g) == g(k) + Weigh(keys - {k}, g);
    if k != key {
      WeighTakes(keys - {k}, g, key);
      WeighTakes(keys - {key}, g, k);
      assert keys - {k} - {key} == keys - {key} - {k};
    }
  }

  lemma WeighNothing(g: Key -> nat)
    ensures Weigh({}, g) == 0
  {
  }

  lemma WeighAdds(keys: set<Key>, g: Key -> nat, key: Key)
    requires key !in keys
    ensures Weigh(keys + {key}, g) == g(key) + Weigh(keys, g)
  {
    WeighTakes(keys + {key}, g, key);
    assert keys + {key} - {key} == keys;
  }

  lemma {:induction false} WeighJoins(a: set<Key>, b: set<Key>, g: Key -> nat)
    requires a !! b
    ensures Weigh(a + b, g) == Weigh(a, g) + Weigh(b, g)
    decreases |b|
  {
    hide Weigh;
    if b == {} {
      assert a + b == a;
      WeighNothing(g);
    } else {
      var k :| k in b;
      WeighTakes(b, g, k);
      WeighJoins(a, b - {k}, g);
      WeighAdds(a + (b - {k}), g, k);
      assert a + b == a + (b - {k}) + {k};
    }
  }

  lemma {:induction false} WeighSame(keys: set<Key>, g: Key -> nat, g': Key -> nat)
    requires forall k :: k in keys ==> g(k) == g'(k)
    ensures Weigh(keys, g) == Weigh(keys, g')
    decreases |keys|
  {
    if keys != {} {
      var k :| k in keys;
      WeighTakes(keys, g, k);
      WeighTakes(keys, g', k);
      WeighSame(keys - {k}, g, g');
    }
  }

  // ---------- Sums over chains and tables ----------

  function KeysIn(b: Bucket): set<Key>
  {
    set j | 0 <= j < |b| :: b[j].key
  }

  /** A weight of keys agrees with a weight of slots. */
  ghost predicate Agree(b: Bucket, f: Slot -> nat, g: Key -> nat)
  {
    forall j :: 0 <= j < |b| ==> f(b[j]) == g(b[j].key)
  }

  lemma {:induction false} ChainWeighs(b: Bucket, f: Slot -> nat, g: Key -> nat)
    requires Agree(b, f, g) && forall j, j' :: 0 <= j < j' < |b| ==> b[j].key != b[j'].key
    ensures Total(b, f) == Weigh(KeysIn(b), g)
    decreases |b|
  {
    hide Weigh;
    if b == [] {
      assert KeysIn(b) == {};
      WeighNothing(g);
    } else {
      var n := |b| - 1;
      ChainWeighs(b[..n], f, g);
      assert KeysIn(b) == KeysIn(b[..n]) + {b[n].key};
      WeighAdds(KeysIn(b[..n]), g, b[n].key);
    }
  }

  /** Chains whose keys lie in chains of their own. */
  ghost predicate Separate(t: Table)
  {
    && (forall i, j, j' :: 0 <= i < |t| && 0 <= j < j' < |t[i]| ==> t[i][j].key != t[i][j'].key)
    && (forall i, i' :: 0 <= i < i' < |t| ==> KeysIn(t[i]) !! KeysIn(t[i']))
  }

  lemma {:induction false} TableWeighs(t: Table, f: Slot -> nat, g: Key -> nat)
    requires Separate(t) && forall i :: 0 <= i < |t| ==> Agree(t[i], f, g)
    ensures TableTotal(t, f) == Weigh(Keys(t), g)
    decreases |t|
  {
    hide Agree, Total, KeysIn;
    if t == [] {
      assert Keys(t) == {};
    } else {
      var n := |t| - 1;
      TableWeighs(t[..n], f, g);
      ChainWeighs(t[n], f, g);
      KeysSplit(t);
      WeighJoins(Keys(t[..n]), KeysIn(t[n]), g);
    }
  }

  lemma KeysSplit(t: Table)
    requires t != [] && Separate(t)
    ensures var n := |t| - 1;
            Keys(t) == Keys(t[..n]) + KeysIn(t[n]) && Keys(t[..n]) !! KeysIn(t[n])
  {
    var n := |t| - 1;
    forall k | k in Keys(t[..n]) ensures k !in KeysIn(t[n]) {
      var i, j :| 0 <= i < n && 0 <= j < |t[i]| && t[i][j].key == k;
      assert k in KeysIn(t[i]);
    }
    forall k | k in Keys(t) ensures k in Keys(t[..n]) + KeysIn(t[n]) {
      var i, j :| 0 <= i < |t| && 0 <= j < |t[i]| && t[i][j].key == k;
      if i < n {
        assert t[..n][i][j].key == k;
      }
    }
    forall k | k in Keys(t[..n]) ensures k in Keys(t) {
      var i, j :| 0 <= i < n && 0 <= j < |t[..n][i]| && t[..n][i][j].key == k;
      assert t[i][j].key == k;
    }
    forall k | k in KeysIn(t[n]) ensures k in Keys(t) {
      var j :| 0 <= j < |t[n]| && t[n][j].key == k;
    }
  }

  lemma OkIsSeparate(t: Table, h: Hasher)
    requires TableOk(t, h)
    ensures Separate(t)
  {
    hide Cursors.BucketIndex, Words.Log2, Words.PowerOfTwo;
    forall i, i' | 0 <= i < i' < |t| ensures KeysIn(t[i]) !! KeysIn(t[i']) {
      assert BucketOk(t[i], i, |t|, h) && BucketOk(t[i'], i', |t|, h);
      forall k | k in KeysIn(t[i]) ensures k !in KeysIn(t[i']) {
        var j :| 0 <= j < |t[i]| && t[i][j].key == k;
        assert BucketIndex(h(k), |t|) == i;
      }
    }
    forall i, j, j' | 0 <= i < |t| && 0 <= j < j' < |t[i]| ensures t[i][j].key != t[i][j'].key {
      assert BucketOk(t[i], i, |t|, h);
    }
  }

  /** Every listed key is found where it is listed. */
  lemma ListedIsFound(t: Table, h: Hasher, i: nat, j: nat)
    requires TableOk(t, h) && i < |t| && j < |t[i]|
    ensures Find(t, h(t[i][j].key), t[i][j].key) == Some(t[i][j].entry)
  {
    hide Cursors.BucketIndex, Words.Log2, Words.PowerOfTwo;
    assert BucketOk(t[i], i, |t|, h);
    HeldAt(t[i], i, |t|, h, j);
  }

  // ---------- Keyspaces ----------

  /** A table's keys are those it finds. */
  lemma KeysAreFound(t: Table, h: Hasher)
    requires TableOk(t, h)
    ensures forall k :: k in Keys(t) <==> Find(t, h(k), k).Some?
  {
    hide Tables.Find, Tables.TableOk, Words.Log2, Words.PowerOfTwo;
    forall k ensures k in Keys(t) <==> Find(t, h(k), k).Some? {
      if k in Keys(t) {
        var i, j :| 0 <= i < |t| && 0 <= j < |t[i]| && t[i][j].key == k;
        ListedIsFound(t, h, i, j);
      }
      if Find(t, h(k), k).Some? {
        FindIsListed(t, h(k), k);
      }
    }
  }

  /** A weight by slot comes to the same weight by key, over any table that finds what the map has. */
  lemma WeighsByKey(t: Table, h: Hasher, m: map<Key, Entry>, f: Slot -> nat, g: Key -> nat)
    requires TableOk(t, h)
    requires forall k :: Find(t, h(k), k).Some? ==> k in m && m[k] == Find(t, h(k), k).value
    requires forall slot: Slot :: slot.key in m && m[slot.key] == slot.entry ==> f(slot) == g(slot.key)
    ensures TableTotal(t, f) == Weigh(Keys(t), g)
  {
    hide Tables.Find, Tables.TableOk, Tables.TableTotal, Keyspaces.Keys;
    OkIsSeparate(t, h);
    forall i | 0 <= i < |t| ensures Agree(t[i], f, g) {
      forall j | 0 <= j < |t[i]| ensures f(t[i][j]) == g(t[i][j].key) {
        ListedIsFound(t, h, i, j);
      }
    }
    TableWeighs(t, f, g);
  }

  lemma RecountWeighs(s: Keyspace, h: Hasher, f: Slot -> nat, g: Key -> nat)
    requires Placed(s, h)
    requires forall slot: Slot :: slot.key in Contents(s, h) && Contents(s, h)[slot.key] == slot.entry
               ==> f(slot) == g(slot.key)
    ensures Recount(s, f) == Weigh(Contents(s, h).Keys, g)
  {
    hide Tables.Find, Tables.TableOk, Tables.TableTotal, Keyspaces.Keys, Keyspaces.Contents, Words.Log2;
    var m := Contents(s, h);
    BaseIsHeld(s, h);
    KeysAreFound(s.base, h);
    WeighsByKey(s.base, h, m, f, g);
    if s.next.Some? {
      var t := s.next.value;
      KeysAreFound(t, h);
      WeighsByKey(t, h, m, f, g);
      assert Keys(s.base) !! Keys(t);
      assert m.Keys == Keys(s.base) + Keys(t);
      WeighJoins(Keys(s.base), Keys(t), g);
    } else {
      assert m.Keys == Keys(s.base);
    }
  }

  lemma BaseIsHeld(s: Keyspace, h: Hasher)
    requires Placed(s, h)
    ensures forall k :: Find(s.base, h(k), k).Some? ==> Get(s, h, k) == Find(s.base, h(k), k)
    ensures s.next.Some? ==>
              forall k :: Find(s.next.value, h(k), k).Some? ==> Get(s, h, k) == Find(s.next.value, h(k), k)
  {
    hide Tables.Find, Tables.TableOk;
  }

  // ---------- The figures ----------

  /** How many buckets a keyspace has, in one table or two. */
  function Buckets(s: Keyspace): nat
  {
    |s.base| + if s.next.Some? then |s.next.value| else 0
  }

  /** What a key and its value are charged. */
  ghost function Price(m: map<Key, Entry>): Key -> nat
  {
    k => if k in m then 96 + |k| + |m[k].value| else 0
  }

  /** The memory of the entries of a plain map. */
  ghost function MapBytes(m: map<Key, Entry>): nat
  {
    Weigh(m.Keys, Price(m))
  }

  /** In every valid keyspace memory is 24 a bucket of each table, and for every key of the map 96 and
      the bytes of the key and of its value. */
  lemma MemoryIsExact(s: Keyspace, h: Hasher)
    requires Valid(s, h)
    ensures s.usedBytes == 24 * Buckets(s) + MapBytes(Contents(s, h))
  {
    hide Keyspaces.Recount, Keyspaces.Placed, Keyspaces.Contents, Keyspaces.Loaded;
    RecountWeighs(s, h, SlotBytes, Price(Contents(s, h)));
  }

  /** The keys of a map that have a deadline. */
  ghost function DatedKeys(m: map<Key, Entry>): set<Key>
  {
    set k | k in m && m[k].expiresAt.Some?
  }

  ghost function HasDeadline(m: map<Key, Entry>): Key -> nat
  {
    k => if k in DatedKeys(m) then 1 else 0
  }

  /** And the deadline figure is how many keys have one. */
  lemma DeadlinesAreExact(s: Keyspace, h: Hasher)
    requires Valid(s, h)
    ensures s.withDeadline == |DatedKeys(Contents(s, h))|
  {
    hide Keyspaces.Recount, Keyspaces.Placed, Keyspaces.Contents, Keyspaces.Loaded;
    var m := Contents(s, h);
    RecountWeighs(s, h, SlotDated, HasDeadline(m));
    WeighCounts(m.Keys, m);
    assert m.Keys * DatedKeys(m) == DatedKeys(m);
  }

  lemma {:induction false} WeighCounts(keys: set<Key>, m: map<Key, Entry>)
    ensures Weigh(keys, HasDeadline(m)) == |keys * DatedKeys(m)|
    decreases |keys|
  {
    hide Weigh, DatedKeys;
    if keys == {} {
      WeighNothing(HasDeadline(m));
      assert keys * DatedKeys(m) == {};
    } else {
      var k :| k in keys;
      WeighTakes(keys, HasDeadline(m), k);
      WeighCounts(keys - {k}, m);
      CountSplits(keys, DatedKeys(m), k);
    }
  }

  lemma CountSplits(keys: set<Key>, dated: set<Key>, key: Key)
    requires key in keys
    ensures |keys * dated| == |(keys - {key}) * dated| + if key in dated then 1 else 0
  {
    if key in dated {
      assert keys * dated == (keys - {key}) * dated + {key};
    } else {
      assert keys * dated == (keys - {key}) * dated;
    }
  }

  // ---------- What a write moves ----------

  lemma MapBytesWithout(m: map<Key, Entry>, key: Key)
    requires key in m
    ensures MapBytes(m) == 96 + |key| + |m[key].value| + MapBytes(m - {key})
  {
    WeighTakes(m.Keys, Price(m), key);
    assert (m - {key}).Keys == m.Keys - {key};
    WeighSame(m.Keys - {key}, Price(m), Price(m - {key}));
  }

  lemma MapBytesBinds(m: map<Key, Entry>, key: Key, entry: Entry)
    ensures MapBytes(m[key := entry]) - MapBytes(m)
         == if key in m then |entry.value| - |m[key].value| else 96 + |key| + |entry.value|
  {
    hide MapBytes;
    var m' := m[key := entry];
    MapBytesWithout(m', key);
    if key in m {
      MapBytesWithout(m, key);
      assert m' - {key} == m - {key};
    } else {
      assert m' - {key} == m;
    }
  }

  /** The memory of a write is its own bytes, less those of the value it overwrites, and whatever
      tables it made or was done with. */
  lemma InsertMovesMemory(s: Keyspace, h: Hasher, key: Key, entry: Entry)
    requires Valid(s, h) && s.len < MAX_LEN
    ensures var s', m := Insert(s, h, key, entry), Contents(s, h);
            s'.usedBytes - s.usedBytes
            == 24 * (Buckets(s') - Buckets(s))
               + if key in m then |entry.value| - |m[key].value| else 96 + |key| + |entry.value|
  {
    hide Keyspaces.Valid, Insert, Keyspaces.Contents, Buckets, MapBytes;
    InsertRefines(s, h, key, entry);
    MemoryIsExact(s, h);
    MemoryIsExact(Insert(s, h, key, entry), h);
    MapBytesBinds(Contents(s, h), key, entry);
  }

  /** A removal gives back exactly what the entry was charged. */
  lemma RemoveMovesMemory(s: Keyspace, h: Hasher, key: Key)
    requires Valid(s, h)
    ensures var s', m := Remove(s, h, key), Contents(s, h);
            s.usedBytes - s'.usedBytes
            == 24 * (Buckets(s) - Buckets(s')) + if key in m then 96 + |key| + |m[key].value| else 0
  {
    hide Keyspaces.Valid, Remove, Keyspaces.Contents, Buckets, MapBytes;
    var s', m := Remove(s, h, key), Contents(s, h);
    RemoveRefines(s, h, key);
    MemoryIsExact(s, h);
    MemoryIsExact(s', h);
    if key in m {
      MapBytesWithout(m, key);
    } else {
      assert m - {key} == m;
    }
  }

  // ---------- When tables grow and how fast they migrate ----------

  /** A keyspace begins with one table of eight buckets, at 24 bytes each. */
  lemma StartsWithEight()
    ensures Buckets(New()) == 8 && New().next.None? && New().usedBytes == 192
  {
  }

  /** A migration step drains exactly the next buckets asked for, or all that are left, and is done
      exactly when none is left: then the larger table, of twice the buckets, is the only one. */
  lemma StepDrainsExactly(s: Keyspace, buckets: nat)
    requires Shape(s)
    ensures s.next.None? ==> RehashStep(s, buckets) == s
    ensures s.next.Some? && s.rehashIndex + buckets >= |s.base| ==>
              var s' := RehashStep(s, buckets);
              s'.next.None? && |s'.base| == 2 * |s.base| && s'.rehashIndex == 0
    ensures s.next.Some? && s.rehashIndex + buckets < |s.base| ==>
              var s' := RehashStep(s, buckets);
              && |s'.base| == |s.base| && s'.next.Some? && |s'.next.value| == 2 * |s.base|
              && s'.rehashIndex == s.rehashIndex + buckets
              && (forall i :: s.rehashIndex <= i < s.rehashIndex + buckets ==> s'.base[i] == [])
              && (forall i :: 0 <= i < s.rehashIndex || s.rehashIndex + buckets <= i < |s.base| ==>
                    s'.base[i] == s.base[i])
  {
    hide Keyspaces.Migrate;
    if s.next.Some? {
      MigrateDrains(s.base, s.next.value, s.rehashIndex, RehashEnd(s, buckets));
    }
  }

  /** The tables of a keyspace: how many buckets the base has, and where a migration stands. */
  function Layout(s: Keyspace): (nat, Option<nat>)
  {
    (|s.base|, if s.next.Some? then Some(s.rehashIndex) else None)
  }

  /** One more bucket migrated, of a migration under way. */
  function Further(layout: (nat, Option<nat>)): (nat, Option<nat>)
  {
    match layout.1
    case None => layout
    case Some(i) => if i + 1 >= layout.0 then (2 * layout.0, None) else (layout.0, Some(i + 1))
  }

  /** An insert begins a doubling exactly when none is under way and there are as many entries as
      buckets; one under way it takes one bucket further; otherwise it leaves the tables alone. */
  lemma InsertGrows(s: Keyspace, h: Hasher, key: Key, entry: Entry)
    requires Shape(s)
    ensures Layout(Insert(s, h, key, entry))
         == if s.next.None? && s.len >= |s.base| then (|s.base|, Some(0)) else Further(Layout(s))
  {
    hide Keyspaces.RehashStep, Tables.Find, Keyspaces.Get, Tables.Push;
    StepDrainsExactly(s, 1);
    StoreKeepsLayout(Prepare(s), h, key, entry);
  }

  lemma StoreKeepsLayout(s: Keyspace, h: Hasher, key: Key, entry: Entry)
    requires Shape(s)
    ensures Layout(Store(s, h, key, entry)) == Layout(s)
  {
    hide Keyspaces.Get, Tables.Find, Tables.Push, Keyspaces.Overwrite;
    if Get(s, h, key).Some? {
      OverwriteFrame(s, h, key, entry);
    }
  }

  /** A removal only takes a migration one bucket further. */
  lemma RemoveMigrates(s: Keyspace, h: Hasher, key: Key)
    requires Shape(s)
    ensures Layout(Remove(s, h, key)) == Further(Layout(s))
  {
    hide Keyspaces.RehashStep, Tables.Find, Tables.RemoveFrom, Keyspaces.Get;
    StepDrainsExactly(s, 1);
    var s' := RehashStep(s, 1);
    if Get(s', h, key).Some? {
      TakeOutKeepsLayout(s', h, key);
    }
  }

  lemma TakeOutKeepsLayout(s: Keyspace, h: Hasher, key: Key)
    requires Shape(s) && Get(s, h, key).Some?
    ensures Layout(TakeOut(s, h, key)) == Layout(s)
  {
  }

  // ---------- The clock ----------

  function Touches(ops: seq<Op>): nat
  {
    if ops == [] then 0 else (if ops[0].OpTouch? then 1 else 0) + Touches(ops[1..])
  }

  /** The clock counts touches, found or not, and nothing else, and wraps at 2^32. */
  lemma {:induction false} ClockCountsTouches(s: Keyspace, h: Hasher, ops: seq<Op>)
    requires Shape(s) && s.clock < 4_294_967_296 && forall i :: 0 <= i < |ops| ==> !ops[i].OpClear?
    ensures Run(s, h, ops).clock == (s.clock + Touches(ops)) % 4_294_967_296
    decreases |ops|
  {
    hide Apply;
    if ops != [] {
      OpTicks(s, h, ops[0]);
      ClockCountsTouches(Apply(s, h, ops[0]), h, ops[1..]);
    }
  }

  lemma OpTicks(s: Keyspace, h: Hasher, op: Op)
    requires Shape(s) && s.clock < 4_294_967_296 && !op.OpClear?
    ensures Apply(s, h, op).clock == (s.clock + if op.OpTouch? then 1 else 0) % 4_294_967_296
  {
    hide Tables.Find, Keyspaces.Migrate, Tables.Push;
  }

  // ---------- Every key after every operation ----------

  /** What every operation leaves every key, the one it names and all others. */
  lemma EveryKeyAfter(s: Keyspace, h: Hasher, op: Op, k: Key)
    requires Valid(s, h) && Fits(s, op)
    ensures var before, after := Get(s, h, k), Get(Apply(s, h, op), h, k);
            && (op.OpInsert? ==> after == if k == op.key then Some(op.entry) else before)
            && (op.OpRemove? ==> after == if k == op.key then None else before)
            && (op.OpSetDeadline? && k == op.key && before.Some? ==>
                  after == Some(Entry(before.value.value, op.deadline, before.value.touched)))
            && (op.OpTouch? && k == op.key && before.Some? ==>
                  after == Some(Entry(before.value.value, before.value.expiresAt, (s.clock + 1) % 4_294_967_296)))
            && ((op.OpSetDeadline? || op.OpTouch?) && (k != op.key || before.None?) ==> after == before)
            && (op.OpRehash? ==> after == before)
            && (op.OpClear? ==> after == None)
  {
    hide Keyspaces.Valid, Apply, Keyspaces.Get, Keyspaces.Contents;
    ApplyRefines(s, h, op);
    HeldInContents(s, h, k);
    HeldInContents(Apply(s, h, op), h, k);
  }

  lemma HeldInContents(s: Keyspace, h: Hasher, k: Key)
    requires Shape(s)
    ensures Get(s, h, k) == if k in Contents(s, h) then Some(Contents(s, h)[k]) else None
  {
    hide Keyspaces.Get;
  }

  lemma TouchStamps(s: Keyspace, h: Hasher, key: Key, other: Key)
    requires Valid(s, h) && key != other && s.clock + 1 < 4_294_967_296 && Get(s, h, key).Some?
    ensures var s' := Apply(s, h, OpTouch(key));
            && Valid(s', h) && s'.clock == s.clock + 1
            && Get(s', h, key).Some? && Get(s', h, key).value.touched == s.clock + 1
            && Get(s', h, other) == Get(s, h, other)
  {
    hide Keyspaces.Valid, Apply, Keyspaces.Get, Runs.Abstract, Runs.ApplyToMap, Keyspaces.Placed;
    var op := OpTouch(key);
    assert (s.clock + 1) % 4_294_967_296 == s.clock + 1;
    ApplyRefines(s, h, op);
    OpTicks(s, h, op);
    EveryKeyAfter(s, h, op, key);
    EveryKeyAfter(s, h, op, other);
  }

  /** Of two keys touched one after the other the later has the later stamp, until the clock wraps. */
  lemma LaterTouchIsLater(s: Keyspace, h: Hasher, a: Key, b: Key)
    requires Valid(s, h) && a != b && Get(s, h, a).Some? && Get(s, h, b).Some? && s.clock + 2 < 4_294_967_296
    ensures var s' := Apply(Apply(s, h, OpTouch(a)), h, OpTouch(b));
            && Get(s', h, a).Some? && Get(s', h, b).Some?
            && Get(s', h, a).value.touched < Get(s', h, b).value.touched
  {
    hide Keyspaces.Valid, Apply, Keyspaces.Get;
    TouchStamps(s, h, a, b);
    TouchStamps(Apply(s, h, OpTouch(a)), h, b, a);
  }

  // ---------- The deadline flag ----------

  /** Whether some deadline was set since the keyspace was last new, cleared, or emptied by a removal:
      what the flag remembers, over every run. */
  ghost predicate DeadlineSet(s: Keyspace, h: Hasher, ops: seq<Op>)
    requires Shape(s)
    decreases |ops|
  {
    if ops == [] then false
    else
      var n := |ops| - 1;
      var before, op := Run(s, h, ops[..n]), ops[n];
      match op
      case OpInsert(_, entry) => entry.expiresAt.Some? || DeadlineSet(s, h, ops[..n])
      case OpSetDeadline(_, deadline) => deadline.Some? || DeadlineSet(s, h, ops[..n])
      case OpRemove(key) => !(before.len == 1 && Get(before, h, key).Some?) && DeadlineSet(s, h, ops[..n])
      case OpClear => false
      case _ => DeadlineSet(s, h, ops[..n])
  }

  lemma {:induction false} RunsOn(s: Keyspace, h: Hasher, ops: seq<Op>)
    requires Shape(s) && ops != []
    ensures Run(s, h, ops) == Apply(Run(s, h, ops[..|ops| - 1]), h, ops[|ops| - 1])
    decreases |ops|
  {
    hide Apply;
    var n := |ops| - 1;
    if n == 0 {
      assert ops[1..] == [] && ops[..0] == [];
    } else {
      RunsOn(Apply(s, h, ops[0]), h, ops[1..]);
      assert ops[1..][..n - 1] == ops[..n][1..];
    }
  }

  lemma {:induction false} FlagRemembers(h: Hasher, ops: seq<Op>)
    requires RunFits(New(), h, ops)
    ensures Run(New(), h, ops).mayHoldDeadlines <==> DeadlineSet(New(), h, ops)
    decreases |ops|
  {
    hide Apply, New;
    NewValid(h);
    if ops == [] {
      NewHasNone();
    } else {
      var n := |ops| - 1;
      FitsBefore(New(), h, ops);
      FlagRemembers(h, ops[..n]);
      RunsOn(New(), h, ops);
      RunRefines(New(), h, ops[..n]);
      FlagAfter(Run(New(), h, ops[..n]), h, ops[n]);
    }
  }

  lemma NewHasNone()
    ensures !New().mayHoldDeadlines
  {
  }

  lemma {:induction false} FitsBefore(s: Keyspace, h: Hasher, ops: seq<Op>)
    requires Shape(s) && ops != [] && RunFits(s, h, ops)
    ensures RunFits(s, h, ops[..|ops| - 1])
    decreases |ops|
  {
    hide Apply, Runs.Fits;
    var n := |ops| - 1;
    if n > 0 {
      FitsBefore(Apply(s, h, ops[0]), h, ops[1..]);
      assert ops[1..][..n - 1] == ops[..n][1..];
    }
  }

  lemma FlagAfter(s: Keyspace, h: Hasher, op: Op)
    requires Valid(s, h)
    ensures var flag := Apply(s, h, op).mayHoldDeadlines;
            && (op.OpInsert? ==> flag == (s.mayHoldDeadlines || op.entry.expiresAt.Some?))
            && (op.OpSetDeadline? ==> flag == (s.mayHoldDeadlines || op.deadline.Some?))
            && (op.OpRemove? ==> flag == (s.mayHoldDeadlines && !(s.len == 1 && Get(s, h, op.key).Some?)))
            && (op.OpTouch? || op.OpRehash? ==> flag == s.mayHoldDeadlines)
            && (op.OpClear? ==> !flag)
  {
    hide Tables.Find, Keyspaces.Migrate, Tables.Push, Keyspaces.Get, Keyspaces.Contents, Keyspaces.Counted,
         Keyspaces.Loaded, Tables.TableOk, Keyspaces.Placed;
    if op.OpRemove? {
      FoundWhileMigrating(s, h, op.key);
    }
  }

  lemma FoundWhileMigrating(s: Keyspace, h: Hasher, key: Key)
    requires Valid(s, h)
    ensures Get(RehashStep(s, 1), h, key) == Get(s, h, key)
  {
    hide Keyspaces.Valid, Keyspaces.Get, Keyspaces.RehashStep, Keyspaces.Contents;
    RehashKeeps(s, h, 1);
    HeldInContents(s, h, key);
    HeldInContents(RehashStep(s, 1), h, key);
  }
}
