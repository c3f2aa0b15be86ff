/**
 One hash table of the keyspace: buckets of slots, chained in insertion order, with the four
 things the keyspace does to a table (look up, overwrite, push, remove) and what each means
 for every key.
 */
module Tables {
  import opened Basics
  import opened Words
  import opened Cursors

  type Key = seq<byte>

  type Instant = nat

  /** The seeded hash of a key: a pure function fixed for the life of a keyspace. */
  type Hasher = Key -> Word

  datatype Entry = Entry(value: seq<byte>, expiresAt: Option<Instant>, touched: nat)

  datatype Slot = Slot(hash: Word, key: Key, entry: Entry)

  type Bucket = seq<Slot>

  type Table = seq<Bucket>

  const MAX_BUCKET_BITS: nat := 48

  predicate Matches(slot: Slot, hash: Word, key: Key)
  {
    slot.hash == hash && slot.key == key
  }

  /** The first slot of a chain that is `key`'s. */
  function IndexOf(b: Bucket, hash: Word, key: Key): (r: Option<nat>)
    ensures r.Some? ==> r.value < |b| && Matches(b[r.value], hash, key)
    ensures r.None? ==> forall j :: 0 <= j < |b| ==> !Matches(b[j], hash, key)
  {
    if |b| == 0 then None
    else if Matches(b[0], hash, key) then Some(0)
    else
      match IndexOf(b[1..], hash, key)
      case None => None
      case Some(j) => Some(j + 1)
  }

  /** The entry a chain holds for a key. */
  function Held(b: Bucket, hash: Word, key: Key): Option<Entry>
  {
    match IndexOf(b, hash, key)
    case None => None
    case Some(j) => Some(b[j].entry)
  }

  function Find(t: Table, hash: Word, key: Key): Option<Entry>
    requires |t| > 0
  {
    Held(t[BucketIndex(hash, |t|)], hash, key)
  }

  /** Overwrites the entry of a key that is there. */
  function Replace(t: Table, hash: Word, key: Key, entry: Entry): Table
    requires |t| > 0 && Find(t, hash, key).Some?
  {
    var i := BucketIndex(hash, |t|);
    t[i := t[i][IndexOf(t[i], hash, key).value := Slot(hash, key, entry)]]
  }

  /** Appends a slot to the chain its stored hash selects. */
  function Push(t: Table, slot: Slot): (r: Table)
    requires |t| > 0
    ensures |r| == |t|
  {
    var i := BucketIndex(slot.hash, |t|);
    t[i := t[i] + [slot]]
  }

  function PushAll(t: Table, slots: seq<Slot>): (r: Table)
    requires |t| > 0
    ensures |r| == |t|
  {
    if slots == [] then t else Push(PushAll(t, slots[..|slots| - 1]), slots[|slots| - 1])
  }

  /** Removes a key that is there, keeping the rest of its chain in order. */
  function RemoveFrom(t: Table, hash: Word, key: Key): Table
    requires |t| > 0 && Find(t, hash, key).Some?
  {
    var i := BucketIndex(hash, |t|);
    var j := IndexOf(t[i], hash, key).value;
    t[i := t[i][..j] + t[i][j + 1..]]
  }

  function EmptyTable(buckets: nat): (t: Table)
    ensures |t| == buckets
    ensures forall i :: 0 <= i < buckets ==> t[i] == []
  {
    seq(buckets, _ => [])
  }

  // ---------- Well-formedness ----------

  /** A chain: every slot carries its key's hash, belongs here, and has a key of its own. */
  ghost predicate BucketOk(b: Bucket, i: nat, buckets: nat, h: Hasher)
    requires buckets > 0
  {
    && (forall j :: 0 <= j < |b| ==> b[j].hash == h(b[j].key) && BucketIndex(b[j].hash, buckets) == i)
    && (forall j, j' :: 0 <= j < j' < |b| ==> b[j].key != b[j'].key)
  }

  ghost predicate TableOk(t: Table, h: Hasher)
    ensures TableOk(t, h) ==> |t| > 0
  {
    && PowerOfTwo(|t|)
    && Log2(|t|) <= MAX_BUCKET_BITS
    && forall i :: 0 <= i < |t| ==> BucketOk(t[i], i, |t|, h)
  }

  /** In a well-formed chain the slot at `j` is the one its key finds. */
  lemma HeldAt(b: Bucket, i: nat, buckets: nat, h: Hasher, j: nat)
    requires buckets > 0 && BucketOk(b, i, buckets, h) && j < |b|
    ensures Held(b, h(b[j].key), b[j].key) == Some(b[j].entry)
  {
    var r := IndexOf(b, h(b[j].key), b[j].key);
    assert Matches(b[j], h(b[j].key), b[j].key);
    assert r.Some?;
  }

  // ---------- What each change does to every key ----------

  lemma ReplaceFinds(t: Table, h: Hasher, key: Key, entry: Entry)
    requires TableOk(t, h) && Find(t, h(key), key).Some?
    ensures var t' := Replace(t, h(key), key, entry);
            && |t'| == |t|
            && TableOk(t', h)
            && (forall i :: 0 <= i < |t| && t[i] == [] ==> t'[i] == [])
            && forall k :: Find(t', h(k), k) == if k == key then Some(entry) else Find(t, h(k), k)
  {
    var i := BucketIndex(h(key), |t|);
    var b := t[i];
    var j := IndexOf(b, h(key), key).value;
    var b' := b[j := Slot(h(key), key, entry)];
    var t' := Replace(t, h(key), key, entry);
    assert BucketOk(b, i, |t|, h);
    assert BucketOk(b', i, |t|, h);
    forall k ensures Find(t', h(k), k) == if k == key then Some(entry) else Find(t, h(k), k) {
      if BucketIndex(h(k), |t|) == i {
        ReplaceHeld(b, i, |t|, h, j, entry, k);
      }
    }
  }

  lemma ReplaceHeld(b: Bucket, i: nat, buckets: nat, h: Hasher, j: nat, entry: Entry, k: Key)
    requires buckets > 0 && BucketOk(b, i, buckets, h) && j < |b|
    ensures var b' := b[j := Slot(b[j].hash, b[j].key, entry)];
            Held(b', h(k), k) == if k == b[j].key then Some(entry) else Held(b, h(k), k)
  {
    var b' := b[j := Slot(b[j].hash, b[j].key, entry)];
    assert BucketOk(b', i, buckets, h);
    if k == b[j].key {
      HeldAt(b', i, buckets, h, j);
    } else if Held(b, h(k), k).Some? {
      var m := IndexOf(b, h(k), k).value;
      assert b'[m] == b[m];
      HeldAt(b, i, buckets, h, m);
      HeldAt(b', i, buckets, h, m);
    }
  }

  lemma PushFinds(t: Table, h: Hasher, slot: Slot)
    requires TableOk(t, h) && slot.hash == h(slot.key) && Find(t, slot.hash, slot.key).None?
    ensures var t' := Push(t, slot);
            && TableOk(t', h)
            && forall k :: Find(t', h(k), k) == if k == slot.key then Some(slot.entry) else Find(t, h(k), k)
  {
    var i := BucketIndex(slot.hash, |t|);
    var b := t[i];
    var t' := Push(t, slot);
    assert BucketOk(b, i, |t|, h);
    PushHeld(b, i, |t|, h, slot, slot.key);
    forall k ensures Find(t', h(k), k) == if k == slot.key then Some(slot.entry) else Find(t, h(k), k) {
      if BucketIndex(h(k), |t|) == i {
        PushHeld(b, i, |t|, h, slot, k);
      }
    }
  }

  lemma PushHeld(b: Bucket, i: nat, buckets: nat, h: Hasher, slot: Slot, k: Key)
    requires buckets > 0 && BucketOk(b, i, buckets, h)
    requires slot.hash == h(slot.key) && BucketIndex(slot.hash, buckets) == i && Held(b, slot.hash, slot.key).None?
    ensures BucketOk(b + [slot], i, buckets, h)
    ensures Held(b + [slot], h(k), k) == if k == slot.key then Some(slot.entry) else Held(b, h(k), k)
  {
    var b' := b + [slot];
    forall j, j' | 0 <= j < j' < |b'| ensures b'[j].key != b'[j'].key {
      if j' == |b| {
        assert !Matches(b[j], slot.hash, slot.key);
      }
    }
    if k == slot.key {
      HeldAt(b', i, buckets, h, |b|);
    } else if Held(b, h(k), k).Some? {
      var m := IndexOf(b, h(k), k).value;
      assert b'[m] == b[m];
      HeldAt(b, i, buckets, h, m);
      HeldAt(b', i, buckets, h, m);
    }
  }

  lemma RemoveFinds(t: Table, h: Hasher, key: Key)
    requires TableOk(t, h) && Find(t, h(key), key).Some?
    ensures var t' := RemoveFrom(t, h(key), key);
            && |t'| == |t|
            && TableOk(t', h)
            && (forall i :: 0 <= i < |t| && t[i] == [] ==> t'[i] == [])
            && forall k :: Find(t', h(k), k) == if k == key then None else Find(t, h(k), k)
  {
    var i := BucketIndex(h(key), |t|);
    var b := t[i];
    var j := IndexOf(b, h(key), key).value;
    var t' := RemoveFrom(t, h(key), key);
    assert BucketOk(b, i, |t|, h);
    RemoveHeld(b, i, |t|, h, j, key);
    forall k ensures Find(t', h(k), k) == if k == key then None else Find(t, h(k), k) {
      if BucketIndex(h(k), |t|) == i {
        RemoveHeld(b, i, |t|, h, j, k);
      }
    }
  }

  lemma RemoveHeld(b: Bucket, i: nat, buckets: nat, h: Hasher, j: nat, k: Key)
    requires buckets > 0 && BucketOk(b, i, buckets, h) && j < |b|
    ensures var b' := b[..j] + b[j + 1..];
            && BucketOk(b', i, buckets, h)
            && Held(b', h(k), k) == if k == b[j].key then None else Held(b, h(k), k)
  {
    hide Cursors.BucketIndex;
    var b' := b[..j] + b[j + 1..];
    RemoveOk(b, i, buckets, h, j);
    if k != b[j].key && Held(b, h(k), k).Some? {
      var m := IndexOf(b, h(k), k).value;
      var m' := if m < j then m else m - 1;
      assert b'[m'] == b[m];
      HeldAt(b', i, buckets, h, m');
    }
  }

  lemma RemoveOk(b: Bucket, i: nat, buckets: nat, h: Hasher, j: nat)
    requires buckets > 0 && BucketOk(b, i, buckets, h) && j < |b|
    ensures var b' := b[..j] + b[j + 1..];
            && BucketOk(b', i, buckets, h)
            && forall m :: 0 <= m < |b'| ==> b'[m].key != b[j].key && b'[m] in b
  {
    hide Cursors.BucketIndex;
    var b' := b[..j] + b[j + 1..];
    assert forall m :: 0 <= m < |b'| ==> b'[m] == b[if m < j then m else m + 1];
  }

  // ---------- Recounts ----------

  /** The sum of `f` over a chain. */
  function Total(b: Bucket, f: Slot -> nat): nat
  {
    if b == [] then 0 else Total(b[..|b| - 1], f) + f(b[|b| - 1])
  }

  /** The sum of `f` over a table. */
  function TableTotal(t: Table, f: Slot -> nat): nat
  {
    if t == [] then 0 else TableTotal(t[..|t| - 1], f) + Total(t[|t| - 1], f)
  }

  lemma {:induction false} TotalReplace(b: Bucket, f: Slot -> nat, j: nat, slot: Slot)
    requires j < |b|
    ensures Total(b[j := slot], f) + f(b[j]) == Total(b, f) + f(slot)
  {
    var n := |b| - 1;
    if j == n {
      assert b[j := slot][..n] == b[..n];
    } else {
      assert b[j := slot][..n] == b[..n][j := slot];
      TotalReplace(b[..n], f, j, slot);
    }
  }

  lemma {:induction false} TotalRemove(b: Bucket, f: Slot -> nat, j: nat)
    requires j < |b|
    ensures Total(b[..j] + b[j + 1..], f) + f(b[j]) == Total(b, f)
  {
    var n := |b| - 1;
    var b' := b[..j] + b[j + 1..];
    if j == n {
      assert b' == b[..n];
    } else {
      assert b'[..n - 1] == b[..n][..j] + b[..n][j + 1..];
      TotalRemove(b[..n], f, j);
    }
  }

  lemma {:induction false} TableTotalUpdate(t: Table, f: Slot -> nat, i: nat, b: Bucket)
    requires i < |t|
    ensures TableTotal(t[i := b], f) + Total(t[i], f) == TableTotal(t, f) + Total(b, f)
  {
    var n := |t| - 1;
    if i == n {
      assert t[i := b][..n] == t[..n];
    } else {
      assert t[i := b][..n] == t[..n][i := b];
      TableTotalUpdate(t[..n], f, i, b);
    }
  }

  lemma PushTotal(t: Table, f: Slot -> nat, slot: Slot)
    requires |t| > 0
    ensures TableTotal(Push(t, slot), f) == TableTotal(t, f) + f(slot)
  {
    var i := BucketIndex(slot.hash, |t|);
    TableTotalUpdate(t, f, i, t[i] + [slot]);
    assert (t[i] + [slot])[..|t[i]|] == t[i];
  }

  lemma {:induction false} PushAllTotal(t: Table, f: Slot -> nat, slots: seq<Slot>)
    requires |t| > 0
    ensures TableTotal(PushAll(t, slots), f) == TableTotal(t, f) + Total(slots, f)
  {
    if slots != [] {
      var n := |slots| - 1;
      PushAllTotal(t, f, slots[..n]);
      PushTotal(PushAll(t, slots[..n]), f, slots[n]);
    }
  }

  lemma ReplaceTotal(t: Table, f: Slot -> nat, hash: Word, key: Key, entry: Entry)
    requires |t| > 0 && Find(t, hash, key).Some?
    ensures TableTotal(Replace(t, hash, key, entry), f) + f(Slot(hash, key, Find(t, hash, key).value))
         == TableTotal(t, f) + f(Slot(hash, key, entry))
  {
    var i := BucketIndex(hash, |t|);
    var j := IndexOf(t[i], hash, key).value;
    TotalReplace(t[i], f, j, Slot(hash, key, entry));
    TableTotalUpdate(t, f, i, t[i][j := Slot(hash, key, entry)]);
  }

  lemma RemoveTotal(t: Table, f: Slot -> nat, hash: Word, key: Key)
    requires |t| > 0 && Find(t, hash, key).Some?
    ensures TableTotal(RemoveFrom(t, hash, key), f) + f(Slot(hash, key, Find(t, hash, key).value)) == TableTotal(t, f)
  {
    var i := BucketIndex(hash, |t|);
    var j := IndexOf(t[i], hash, key).value;
    TotalRemove(t[i], f, j);
    TableTotalUpdate(t, f, i, t[i][..j] + t[i][j + 1..]);
  }

  lemma {:induction false} EmptyTotal(t: Table, f: Slot -> nat)
    requires forall i :: 0 <= i < |t| ==> t[i] == []
    ensures TableTotal(t, f) == 0
  {
    if t != [] {
      EmptyTotal(t[..|t| - 1], f);
    }
  }

  /** A zero recount leaves nothing to count anywhere in the table. */
  lemma {:induction false} ZeroTotal(t: Table, f: Slot -> nat, i: nat, j: nat)
    requires TableTotal(t, f) == 0 && i < |t| && j < |t[i]|
    ensures f(t[i][j]) == 0
  {
    if i == |t| - 1 {
      ZeroChain(t[i], f, j);
    } else {
      ZeroTotal(t[..|t| - 1], f, i, j);
    }
  }

  lemma {:induction false} ZeroChain(b: Bucket, f: Slot -> nat, j: nat)
    requires Total(b, f) == 0 && j < |b|
    ensures f(b[j]) == 0
  {
    if j < |b| - 1 {
      ZeroChain(b[..|b| - 1], f, j);
    }
  }
}
