/**
 The keyspace as the shard holds it: an object updated in place. Every method is proved
 against the keyspace value it starts from and the plain map that value stands for.
 */
module Dicts {
  import opened Basics
  import opened Words
  import opened Cursors
  import opened Tables
  import K = Keyspaces
  import opened KeyspaceProofs
  import opened Scans
  import opened Walks

  /** When a key is due: for a command looking at it, for the sweep, and whether a key with no
      deadline ever is. */
  datatype Policy = Policy(
    dueOnRead: (Option<Instant>, Instant) -> bool,
    dueOnSweep: (Option<Instant>, Instant) -> bool,
    takesUndated: bool)

  /** What a policy's sweep takes at a time. */
  function Sweeping(policy: Policy, now: Instant): Option<Instant> -> bool
  {
    (at: Option<Instant>) => policy.dueOnSweep(at, now)
  }

  /** The keys among `slots` that are due, in order. */
  function DueKeys(slots: seq<Slot>, due: Option<Instant> -> bool): seq<Key>
  {
    if slots == [] then []
    else
      var last := slots[|slots| - 1];
      DueKeys(slots[..|slots| - 1], due) + if due(last.entry.expiresAt) then [last.key] else []
  }

  class Dict {
    const hash: Hasher
    var base: Table
    var next: Option<Table>
    var rehashIndex: nat
    var len: nat
    var mayHoldDeadlines: bool
    var usedBytes: nat
    var withDeadline: nat
    var clock: nat

    ghost function State(): K.Keyspace
      reads this
    {
      K.Keyspace(base, next, rehashIndex, len, mayHoldDeadlines, usedBytes, withDeadline, clock)
    }

    ghost predicate Valid()
      reads this
    {
      K.Valid(State(), hash)
    }

    ghost function Contents(): map<Key, Entry>
      requires Valid()
      reads this
    {
      K.Contents(State(), hash)
    }

    constructor (hash: Hasher)
      ensures Valid() && this.hash == hash
      ensures State() == K.New() && Contents() == map[]
    {
      this.hash := hash;
      base := EmptyTable(K.INITIAL_BUCKETS);
      next := None;
      rehashIndex, len := 0, 0;
      mayHoldDeadlines := false;
      usedBytes := K.TableBytes(K.INITIAL_BUCKETS);
      withDeadline, clock := 0, 0;
      NewValid(hash);
    }

    /** The entry stored under `key`: both tables are probed, and nothing moves. */
    method Get(key: Key) returns (r: Option<Entry>)
      requires Valid()
      ensures r.Some? <==> key in Contents()
      ensures r.Some? ==> r.value == Contents()[key]
    {
      var h := hash(key);
      r := Find(base, h, key);
      if r.None? && next.Some? {
        r := Find(next.value, h, key);
      }
      assert r == K.Get(State(), hash, key);
    }

    method SetDeadline(key: Key, deadline: Option<Instant>) returns (found: bool)
      requires Valid()
      modifies this
      ensures Valid()
      ensures State() == K.SetDeadline(old(State()), hash, key, deadline)
      ensures found <==> key in old(Contents())
      ensures Contents() == Redated(old(Contents()), key, deadline)
    {
      hide K.Valid, K.Contents, Tables.Find, Tables.Replace, Redated;
      ghost var s := State();
      SetDeadlineRefines(s, hash, key, deadline);
      CountersCover(s, hash, key);
      mayHoldDeadlines := mayHoldDeadlines || deadline.Some?;
      var h := hash(key);
      if Find(base, h, key).Some? {
        var entry := Find(base, h, key).value;
        withDeadline := withDeadline + K.Dated(deadline) - K.Dated(entry.expiresAt);
        base := Replace(base, h, key, entry.(expiresAt := deadline));
        found := true;
      } else if next.Some? && Find(next.value, h, key).Some? {
        var entry := Find(next.value, h, key).value;
        withDeadline := withDeadline + K.Dated(deadline) - K.Dated(entry.expiresAt);
        next := Some(Replace(next.value, h, key, entry.(expiresAt := deadline)));
        found := true;
      } else {
        found := false;
      }
    }

    method Touch(key: Key)
      requires Valid()
      modifies this
      ensures Valid()
      ensures State() == K.Touch(old(State()), hash, key)
      ensures Contents() == Stamped(old(Contents()), key, clock)
    {
      hide K.Valid, K.Contents, Tables.Find, Tables.Replace, Stamped;
      ghost var s := State();
      TouchRefines(s, hash, key);
      clock := (clock + 1) % K.CLOCK_MODULUS;
      var h := hash(key);
      if Find(base, h, key).Some? {
        base := Replace(base, h, key, Find(base, h, key).value.(touched := clock));
      } else if next.Some? && Find(next.value, h, key).Some? {
        next := Some(Replace(next.value, h, key, Find(next.value, h, key).value.(touched := clock)));
      }
    }

    /** Stores `entry` under `key`, overwriting it where it is. A write pays for one bucket of
        a migration in flight, or starts one at a load of one. */
    method Insert(key: Key, entry: Entry)
      requires Valid() && len < K.MAX_LEN
      modifies this
      ensures Valid()
      ensures State() == K.Insert(old(State()), hash, key, entry)
      ensures Contents() == old(Contents())[key := entry]
    {
      hide K.Valid, K.Contents, K.RehashStep, K.StartRehash, K.Store, Tables.Find, K.Get;
      ghost var s := State();
      InsertRefines(s, hash, key, entry);
      PrepareKeeps(s, hash);
      if next.Some? {
        RehashStep(1);
      } else if len >= |base| {
        StartRehash();
      }
      Store(key, entry);
    }

    /** The half of an insert that stores: in whichever table holds the key, or in the one that
        survives a migration. */
    method Store(key: Key, entry: Entry)
      requires Valid()
      modifies this
      ensures State() == K.Store(old(State()), hash, key, entry)
    {
      hide K.Valid, K.Contents, Tables.Find, Tables.Replace, Tables.Push;
      CountersCover(State(), hash, key);
      mayHoldDeadlines := mayHoldDeadlines || entry.expiresAt.Some?;
      var h := hash(key);
      var after := K.EntryBytes(key, entry.value);
      var dated := K.Dated(entry.expiresAt);
      if Find(base, h, key).Some? {
        var existing := Find(base, h, key).value;
        usedBytes := usedBytes - K.EntryBytes(key, existing.value) + after;
        withDeadline := withDeadline + dated - K.Dated(existing.expiresAt);
        base := Replace(base, h, key, entry);
      } else if next.Some? && Find(next.value, h, key).Some? {
        var existing := Find(next.value, h, key).value;
        usedBytes := usedBytes - K.EntryBytes(key, existing.value) + after;
        withDeadline := withDeadline + dated - K.Dated(existing.expiresAt);
        next := Some(Replace(next.value, h, key, entry));
      } else {
        usedBytes := usedBytes + after;
        withDeadline := withDeadline + dated;
        if next.Some? {
          next := Some(Push(next.value, Slot(h, key, entry)));
        } else {
          base := Push(base, Slot(h, key, entry));
        }
        len := len + 1;
      }
    }

    method Remove(key: Key) returns (removed: Option<Entry>)
      requires Valid()
      modifies this
      ensures Valid()
      ensures State() == K.Remove(old(State()), hash, key)
      ensures removed.Some? <==> key in old(Contents())
      ensures removed.Some? ==> removed.value == old(Contents())[key]
      ensures Contents() == old(Contents()) - {key}
    {
      hide K.Valid, K.Contents, K.RehashStep, K.TakeOut, K.Get;
      ghost var s := State();
      RemoveRefines(s, hash, key);
      if next.Some? {
        RehashStep(1);
      } else {
        RehashNothing(s, 1);
      }
      removed := TakeOut(key);
    }

    /** The half of a removal that removes. */
    method TakeOut(key: Key) returns (removed: Option<Entry>)
      requires Valid()
      modifies this
      ensures removed == K.Get(old(State()), hash, key)
      ensures State() == if removed.Some? then K.TakeOut(old(State()), hash, key) else old(State())
    {
      hide K.Valid, K.Contents, Tables.Find, Tables.RemoveFrom;
      CountersCover(State(), hash, key);
      var h := hash(key);
      if Find(base, h, key).Some? {
        removed := Find(base, h, key);
        base := RemoveFrom(base, h, key);
      } else if next.Some? && Find(next.value, h, key).Some? {
        removed := Find(next.value, h, key);
        next := Some(RemoveFrom(next.value, h, key));
      } else {
        removed := None;
      }
      if removed.Some? {
        usedBytes := usedBytes - K.EntryBytes(key, removed.value.value);
        withDeadline := withDeadline - K.Dated(removed.value.expiresAt);
        len := len - 1;
        if len == 0 {
          mayHoldDeadlines := false;
        }
      }
    }

    method Clear()
      requires Valid()
      modifies this
      ensures Valid()
      ensures State() == K.New() && Contents() == map[]
    {
      hide K.Valid, K.Contents;
      base := EmptyTable(K.INITIAL_BUCKETS);
      next := None;
      rehashIndex, len := 0, 0;
      mayHoldDeadlines := false;
      usedBytes := K.TableBytes(K.INITIAL_BUCKETS);
      withDeadline, clock := 0, 0;
      NewValid(hash);
    }

    /** Migrates up to `buckets` further buckets; the map does not change. */
    method RehashStep(buckets: nat)
      requires Valid()
      modifies this
      ensures Valid()
      ensures State() == K.RehashStep(old(State()), buckets)
      ensures Contents() == old(Contents())
    {
      hide K.Valid, K.Contents, Tables.Push, Tables.PushAll, K.Migrate;
      ghost var s := State();
      RehashKeeps(s, hash, buckets);
      UsedCoversTables(s, hash);
      if next.None? {
        return;
      }
      MigrateNone(s.base, s.next.value, s.rehashIndex);
      var end := if rehashIndex + buckets <= |base| then rehashIndex + buckets else |base|;
      var b, n := base, next.value;
      for index := rehashIndex to end
        invariant State() == s
        invariant (b, n) == K.Migrate(s.base, s.next.value, s.rehashIndex, index)
      {
        MigrateNext(s.base, s.next.value, s.rehashIndex, index);
        n := PushChain(n, b[index]);
        b := b[index := []];
      }
      if end == |base| {
        usedBytes := usedBytes - K.TableBytes(|base|);
        base, next, rehashIndex := n, None, 0;
      } else {
        base, next, rehashIndex := b, Some(n), end;
      }
    }

    /** Drains one chain into the larger table, slot by slot. */
    static method PushChain(t: Table, chain: Bucket) returns (r: Table)
      requires |t| > 0
      ensures r == PushAll(t, chain)
    {
      r := t;
      for j := 0 to |chain|
        invariant |r| > 0 && r == PushAll(t, chain[..j])
      {
        assert chain[..j + 1][..j] == chain[..j];
        r := Push(r, chain[j]);
      }
      assert chain[..|chain|] == chain;
    }

    method StartRehash()
      requires Valid() && next.None? && |base| <= len < K.MAX_LEN
      modifies this
      ensures Valid()
      ensures State() == K.StartRehash(old(State()))
      ensures Contents() == old(Contents())
    {
      hide K.Valid, K.Contents;
      StartKeeps(State(), hash);
      next := Some(EmptyTable(2 * |base|));
      usedBytes := usedBytes + K.TableBytes(2 * |base|);
      rehashIndex := 0;
    }

    /** The entries of one step of the walk, and the cursor that comes after it. */
    method Scan(cursor: Word) returns (visited: seq<Slot>, cursor': Word)
      requires Valid()
      ensures visited == Visits(State(), cursor) && cursor' == NextCursor(State(), cursor)
    {
      hide K.Valid, BucketAt, Carried, Cursors.ReverseIncrement;
      if next.Some? {
        SecondRoundCarries(State(), hash, cursor);
      }
      if len == 0 {
        return [], 0;
      }
      if next.None? {
        return BucketAt(base, cursor), ReverseIncrement(cursor, |base| - 1);
      }
      var large := next.value;
      ghost var halfway := ReverseIncrement(cursor, |large| - 1);
      var v := cursor;
      visited := BucketAt(base, v);
      ghost var round := 0;
      while true
        invariant round <= 1
        invariant v == (if round == 0 then cursor else halfway)
        invariant round == 0 ==> visited == BucketAt(base, cursor)
        invariant round == 1 ==> !Carried(v, |base|, |large|)
        invariant round == 1 ==> visited == BucketAt(base, cursor) + BucketAt(large, cursor)
        decreases 1 - round
      {
        visited := visited + BucketAt(large, v);
        v := ReverseIncrement(v, |large| - 1);
        if Carried(v, |base|, |large|) {
          return visited, v;
        }
        round := round + 1;
      }
    }

    /** A victim for eviction: of the entries met in whole buckets from `cursor` on, one no other met
        entry was touched before, `spared` left aside. A lap ends early once `samples` were met. */
    method SampleOldest(cursor: Word, samples: nat, spared: Option<Key>)
      returns (oldest: Option<Key>, cursor': Word, ghost steps: nat)
      requires Valid()
      ensures samples > 0 ==> (oldest.None? <==> forall k :: k in Contents() ==> Some(k) == spared)
      ensures oldest.Some? ==> oldest.value in Contents() && oldest != spared
      ensures cursor' == LapCursor(State(), cursor, steps) && steps <= LapBound(State())
      ensures var examined := LapVisits(State(), cursor, steps);
              && (len == 0 || steps == LapBound(State()) || Unspared(examined, spared) >= samples)
              && (steps > 0 ==> Unspared(LapVisits(State(), cursor, steps - 1), spared) < samples)
              && (forall slot :: slot in examined ==> slot.key in Contents() && Contents()[slot.key] == slot.entry)
              && (forall slot :: slot in examined && Some(slot.key) != spared ==>
                    oldest.Some? && Contents()[oldest.value].touched <= slot.entry.touched)
    {
      hide K.Valid, K.Contents, K.Get, Visits, NextCursor, K.Placed, Oldest, LapVisits, LapCursor, Unspared;
      ghost var s := State();
      oldest, cursor', steps := None, cursor, 0;
      LapOfNothing(s, cursor, spared);
      EmptyHasNothing(s, hash);
      if len == 0 {
        return;
      }
      var stamp: nat, seen: nat, walked: nat := 0, 0, 0;
      var bound := |base| + (if next.Some? then |next.value| else 0);
      ghost var examined := LapVisits(s, cursor, 0);
      while seen < samples && walked < bound
        invariant walked <= bound
        invariant cursor' == LapCursor(s, cursor, walked) && examined == LapVisits(s, cursor, walked)
        invariant (oldest.None? <==> seen == 0) && seen == Unspared(examined, spared)
        invariant Oldest(examined, spared, oldest, stamp)
        invariant walked > 0 ==> Unspared(LapVisits(s, cursor, walked - 1), spared) < samples
        decreases bound - walked
      {
        var visited;
        LapSplits(s, cursor, walked);
        visited, cursor' := Scan(cursor');
        oldest, stamp, seen := Examine(visited, spared, oldest, stamp, seen, examined);
        examined := examined + visited;
        walked := walked + 1;
      }
      steps := walked;
      SampleIsRight(s, hash, cursor, walked, spared, oldest, stamp);
    }

    /** What the visit does with each entry: the spared key is passed over, uncounted. */
    static method Examine(visited: seq<Slot>, spared: Option<Key>, oldest0: Option<Key>, stamp0: nat, seen0: nat,
                          ghost before: seq<Slot>)
      returns (oldest: Option<Key>, stamp: nat, seen: nat)
      requires Oldest(before, spared, oldest0, stamp0) && (oldest0.None? <==> seen0 == 0)
      requires seen0 == Unspared(before, spared)
      ensures Oldest(before + visited, spared, oldest, stamp) && (oldest.None? <==> seen == 0)
      ensures seen == Unspared(before + visited, spared)
    {
      hide Oldest, Unspared;
      oldest, stamp, seen := oldest0, stamp0, seen0;
      assert before + visited[..0] == before;
      for j := 0 to |visited|
        invariant oldest.None? <==> seen == 0
        invariant seen == Unspared(before + visited[..j], spared)
        invariant Oldest(before + visited[..j], spared, oldest, stamp)
      {
        ghost var so := before + visited[..j];
        assert before + visited[..j + 1] == so + [visited[j]];
        UnsparedExtends(so, visited[j], spared);
        OldestExtends(so, visited[j], spared, oldest, stamp);
        if Some(visited[j].key) != spared {
          seen := seen + 1;
          if oldest.None? || visited[j].entry.touched < stamp {
            oldest, stamp := Some(visited[j].key), visited[j].entry.touched;
          }
        }
      }
      assert visited[..|visited|] == visited;
    }

    /** Reports the keys due at `now` in the next stretch of the cycle, changing nothing. */
    method ExpireStep(cursor: Word, budget: nat, now: Instant, policy: Policy) returns (cursor': Word, dead: seq<Key>)
      requires Valid()
      ensures forall k :: k in dead ==> k in Contents() && policy.dueOnSweep(Contents()[k].expiresAt, now)
      ensures forall i, j :: 0 <= i < j < |dead| ==> dead[i] != dead[j]
      ensures forall k :: k in Contents() && policy.dueOnSweep(Contents()[k].expiresAt, now) && budget > 0
                && (mayHoldDeadlines || policy.takesUndated || !policy.dueOnSweep(None, now))
                && Position(cursor) <= Position(hash(k)) && (cursor' == 0 || Position(hash(k)) < Position(cursor'))
                ==> k in dead
      ensures mayHoldDeadlines || policy.takesUndated ==>
                var w := Walk(State(), cursor, budget);
                cursor' == w.cursor && dead == DueKeys(w.slots, Sweeping(policy, now))
      ensures !mayHoldDeadlines && !policy.takesUndated ==>
                && cursor' == cursor && dead == []
                && forall k :: k in Contents() ==> Contents()[k].expiresAt == None
    {
      hide K.Valid, K.Contents, K.Get, Visits, NextCursor, K.Placed, DueKeys, Walk, Cursors.Position;
      ghost var s := State();
      var due := Sweeping(policy, now);
      if !mayHoldDeadlines && !policy.takesUndated {
        NoneIsDated(s, hash);
        return cursor, [];
      }
      dead, cursor' := [], cursor;
      ghost var slots: seq<Slot> := [];
      DueKeysOfNothing(due);
      assert slots + Walk(s, cursor, budget).slots == Walk(s, cursor, budget).slots;
      var left := budget;
      while left > 0
        invariant dead == DueKeys(slots, due)
        invariant ResumesWalk(s, cursor, budget, slots, cursor', left)
      {
        var visited;
        WalkSteps(s, cursor, budget, slots, cursor', left);
        visited, cursor' := Scan(cursor');
        assert slots + visited[..0] == slots;
        for j := 0 to |visited|
          invariant dead == DueKeys(slots + visited[..j], due)
        {
          assert slots + visited[..j + 1] == slots + visited[..j] + [visited[j]];
          DueKeysExtend(slots + visited[..j], visited[j], due);
          if policy.dueOnSweep(visited[j].entry.expiresAt, now) {
            dead := dead + [visited[j].key];
          }
        }
        assert visited[..|visited|] == visited;
        slots := slots + visited;
        left := left - 1;
        if cursor' == 0 {
          break;
        }
      }
      WalkOfNothing(s, cursor');
      assert slots + [] == slots;
      WalkReports(s, hash, cursor, budget, due);
    }
  }

  /** No running figure can be taken below zero by what one entry contributed to it. */
  lemma CountersCover(s: K.Keyspace, h: Hasher, key: Key)
    requires K.Valid(s, h)
    ensures var found := K.Get(s, h, key);
            found.Some? ==>
              && s.usedBytes >= K.EntryBytes(key, found.value.value)
              && s.withDeadline >= K.Dated(found.value.expiresAt)
              && s.len >= 1
  {
    hide Tables.TableTotal, Tables.TableOk, Tables.Find, K.Placed, K.Loaded, K.TakeOut;
    if K.Get(s, h, key).Some? {
      TakeOutRecounts(s, h, key, K.SlotBytes);
      TakeOutRecounts(s, h, key, K.SlotDated);
      assert key in K.Contents(s, h);
    }
  }

  lemma MigrateNone(base: Table, next: Table, from: nat)
    requires |next| > 0 && from <= |base|
    ensures K.Migrate(base, next, from, from) == (base, next)
  {
  }

  lemma MigrateNext(base: Table, next: Table, from: nat, i: nat)
    requires |next| > 0 && from <= i < |base|
    ensures var (b, n) := K.Migrate(base, next, from, i);
            K.Migrate(base, next, from, i + 1) == (b[i := []], PushAll(n, b[i]))
  {
  }

  lemma UsedCoversTables(s: K.Keyspace, h: Hasher)
    requires K.Valid(s, h)
    ensures s.usedBytes >= K.TableBytes(|s.base|)
  {
  }

  /** The loop over the larger table takes at most two rounds. */
  lemma SecondRoundCarries(s: K.Keyspace, h: Hasher, cursor: Word)
    requires K.Placed(s, h) && s.next.Some?
    ensures var large := s.next.value;
            var v := ReverseIncrement(cursor, |large| - 1);
            Carried(v, |s.base|, |large|) || Carried(ReverseIncrement(v, |large| - 1), |s.base|, |large|)
  {
    hide Cursors.ReverseIncrement, Carried, K.Placed;
    Sizes(s, h);
    TwoTableEnd(cursor, Bits(s));
  }

  /** `oldest` is an unspared key of `examined` with the least stamp, if there is one. */
  ghost predicate Oldest(examined: seq<Slot>, spared: Option<Key>, oldest: Option<Key>, stamp: nat)
  {
    && (oldest.None? ==> forall i :: 0 <= i < |examined| ==> Some(examined[i].key) == spared)
    && (oldest.Some? ==>
          && oldest != spared
          && (exists i :: 0 <= i < |examined| && examined[i].key == oldest.value && examined[i].entry.touched == stamp)
          && forall i :: 0 <= i < |examined| && Some(examined[i].key) != spared ==> stamp <= examined[i].entry.touched)
  }

  /** How many of the slots may be chosen. */
  function Unspared(slots: seq<Slot>, spared: Option<Key>): nat
  {
    if slots == [] then 0
    else
      var n := |slots| - 1;
      Unspared(slots[..n], spared) + if Some(slots[n].key) != spared then 1 else 0
  }

  lemma UnsparedExtends(slots: seq<Slot>, slot: Slot, spared: Option<Key>)
    ensures Unspared(slots + [slot], spared) == Unspared(slots, spared) + if Some(slot.key) != spared then 1 else 0
  {
    assert (slots + [slot])[..|slots|] == slots;
  }

  lemma OldestExtends(examined: seq<Slot>, slot: Slot, spared: Option<Key>, oldest: Option<Key>, stamp: nat)
    requires Oldest(examined, spared, oldest, stamp)
    ensures Some(slot.key) == spared || (oldest.Some? && stamp <= slot.entry.touched) ==>
              Oldest(examined + [slot], spared, oldest, stamp)
    ensures Some(slot.key) != spared && (oldest.None? || slot.entry.touched < stamp) ==>
              Oldest(examined + [slot], spared, Some(slot.key), slot.entry.touched)
  {
    var more := examined + [slot];
    assert more[|examined|] == slot;
    assert forall i :: 0 <= i < |examined| ==> more[i] == examined[i];
  }

  lemma LapOfNothing(s: K.Keyspace, cursor: Word, spared: Option<Key>)
    requires K.Shape(s)
    ensures LapVisits(s, cursor, 0) == [] && LapCursor(s, cursor, 0) == cursor
    ensures Oldest([], spared, None, 0) && Unspared([], spared) == 0
  {
  }

  lemma EmptyHasNothing(s: K.Keyspace, h: Hasher)
    requires K.Valid(s, h)
    ensures s.len == 0 ==> forall k :: k !in K.Contents(s, h)
    ensures s.len >= 0
  {
  }

  /** What the candidate left by a lap is worth. */
  lemma SampleIsRight(s: K.Keyspace, h: Hasher, cursor: Word, steps: nat, spared: Option<Key>,
                      oldest: Option<Key>, stamp: nat)
    requires K.Valid(s, h) && s.len != 0
    requires Oldest(LapVisits(s, cursor, steps), spared, oldest, stamp)
    ensures var m := K.Contents(s, h);
            var examined := LapVisits(s, cursor, steps);
            && (oldest.Some? ==> oldest.value in m && oldest != spared)
            && (forall slot :: slot in examined ==> slot.key in m && m[slot.key] == slot.entry)
            && (forall slot :: slot in examined && Some(slot.key) != spared ==>
                  oldest.Some? && m[oldest.value].touched <= slot.entry.touched)
            && (oldest.None? && steps == LapBound(s) ==> forall k :: k in m ==> Some(k) == spared)
  {
    hide K.Valid, Visits, NextCursor, K.Get, K.Placed, LapVisits;
    var examined := LapVisits(s, cursor, steps);
    forall slot | slot in examined ensures K.Get(s, h, slot.key) == Some(slot.entry) {
      LapIsStored(s, h, cursor, steps, slot);
    }
    if oldest.None? && steps == LapBound(s) {
      forall k | k in K.Contents(s, h) ensures Some(k) == spared {
        LapVisitsEverything(s, h, cursor, k);
      }
    }
  }

  // ---------- Sweeping ----------

  lemma DueKeysOfNothing(due: Option<Instant> -> bool)
    ensures DueKeys([], due) == []
  {
  }

  lemma DueKeysExtend(slots: seq<Slot>, slot: Slot, due: Option<Instant> -> bool)
    ensures DueKeys(slots + [slot], due)
         == DueKeys(slots, due) + if due(slot.entry.expiresAt) then [slot.key] else []
  {
    assert (slots + [slot])[..|slots|] == slots;
  }

  lemma NoneIsDated(s: K.Keyspace, h: Hasher)
    requires K.Valid(s, h) && !s.mayHoldDeadlines
    ensures forall k :: k in K.Contents(s, h) ==> K.Contents(s, h)[k].expiresAt == None
  {
    hide K.Valid, K.Get;
    forall k | k in K.Contents(s, h) ensures K.Contents(s, h)[k].expiresAt == None {
      FlagIsSound(s, h, k);
    }
  }

  /** The steps taken so far, with the walk from `at` still to come, are the whole walk; once
      the cycle has ended they are all of it. */
  ghost predicate ResumesWalk(s: K.Keyspace, cursor: Word, budget: nat, slots: seq<Slot>, at: Word, left: nat)
    requires K.Shape(s)
  {
    && Walk(s, cursor, budget).slots == slots + Walk(s, at, left).slots
    && Walk(s, cursor, budget).cursor == Walk(s, at, left).cursor
  }

  lemma WalkSteps(s: K.Keyspace, cursor: Word, budget: nat, slots: seq<Slot>, at: Word, left: nat)
    requires K.Shape(s) && left > 0 && ResumesWalk(s, cursor, budget, slots, at, left)
    ensures var slots', at' := slots + Visits(s, at), NextCursor(s, at);
            if at' == 0 then Walk(s, cursor, budget).slots == slots' && Walk(s, cursor, budget).cursor == 0
            else ResumesWalk(s, cursor, budget, slots', at', left - 1)
  {
    hide Visits, NextCursor;
    assert slots + (Visits(s, at) + Walk(s, NextCursor(s, at), left - 1).slots)
        == slots + Visits(s, at) + Walk(s, NextCursor(s, at), left - 1).slots;
  }

  lemma WalkOfNothing(s: K.Keyspace, at: Word)
    requires K.Shape(s)
    ensures Walk(s, at, 0).slots == [] && Walk(s, at, 0).cursor == at
  {
  }

  /** A run's due keys are stored and due, distinct, and all there are from its cursor to where
      it stops. */
  lemma WalkReports(s: K.Keyspace, h: Hasher, cursor: Word, budget: nat, due: Option<Instant> -> bool)
    requires K.Valid(s, h)
    ensures var m := K.Contents(s, h);
            var dead, end := DueKeys(Walk(s, cursor, budget).slots, due), Walk(s, cursor, budget).cursor;
            && (forall k :: k in dead ==> k in m && due(m[k].expiresAt))
            && (forall i, j :: 0 <= i < j < |dead| ==> dead[i] != dead[j])
            && (forall k :: k in m && due(m[k].expiresAt) && budget > 0
                  && Position(cursor) <= Position(h(k)) && (end == 0 || Position(h(k)) < Position(end))
                  ==> k in dead)
  {
    hide K.Valid, Visits, NextCursor, K.Get, K.Placed, DueKeys, Walk, Cursors.Position, DistinctKeys;
    var slots := Walk(s, cursor, budget).slots;
    var dead := DueKeys(slots, due);
    forall k | k in dead ensures k in K.Contents(s, h) && due(K.Contents(s, h)[k].expiresAt) {
      var slot := DueKeyHasSlot(slots, due, k);
      WalkIsStored(s, h, cursor, budget, slot);
    }
    WalkDistinct(s, h, cursor, budget);
    DueKeysDistinct(slots, due);
    EmptyHasNothing(s, h);
    forall k | k in K.Contents(s, h) && due(K.Contents(s, h)[k].expiresAt) && budget > 0
               && Position(cursor) <= Position(h(k))
               && (Walk(s, cursor, budget).cursor == 0 || Position(h(k)) < Position(Walk(s, cursor, budget).cursor))
      ensures k in dead
    {
      WalkCovers(s, h, cursor, budget, k);
      SlotHasDueKey(slots, due, Slot(h(k), k, K.Get(s, h, k).value));
    }
  }

  lemma {:induction false} DueKeyHasSlot(slots: seq<Slot>, due: Option<Instant> -> bool, k: Key) returns (slot: Slot)
    requires k in DueKeys(slots, due)
    ensures slot in slots && slot.key == k && due(slot.entry.expiresAt)
    decreases |slots|
  {
    var n := |slots| - 1;
    if k in DueKeys(slots[..n], due) {
      slot := DueKeyHasSlot(slots[..n], due, k);
    } else {
      slot := slots[n];
    }
  }

  lemma {:induction false} SlotHasDueKey(slots: seq<Slot>, due: Option<Instant> -> bool, slot: Slot)
    requires slot in slots && due(slot.entry.expiresAt)
    ensures slot.key in DueKeys(slots, due)
    decreases |slots|
  {
    var n := |slots| - 1;
    if slot in slots[..n] {
      SlotHasDueKey(slots[..n], due, slot);
    } else {
      assert slots[n] == slot;
    }
  }

  lemma {:induction false} DueKeysDistinct(slots: seq<Slot>, due: Option<Instant> -> bool)
    requires DistinctKeys(slots)
    ensures forall i, j :: 0 <= i < j < |DueKeys(slots, due)| ==> DueKeys(slots, due)[i] != DueKeys(slots, due)[j]
    decreases |slots|
  {
    if slots != [] {
      var n := |slots| - 1;
      var kept, all := DueKeys(slots[..n], due), DueKeys(slots, due);
      DueKeysDistinct(slots[..n], due);
      forall i, j | 0 <= i < j < |all| ensures all[i] != all[j] {
        if j == |kept| {
          var slot := DueKeyHasSlot(slots[..n], due, kept[i]);
        }
      }
    }
  }
}
