/**
 A shard's own step of a `SCAN`: a bounded run of the walk that reports the live keys matching a
 pattern.
 */
module ShardScans {
  import opened Basics
  import opened Words
  import opened Tables
  import K = Keyspaces
  import opened Scans
  import opened Walks
  import opened Dicts
  import opened Glob

  /** What a walk asks for: a pattern, if the client gave one, of keys live by the node's policy. */
  datatype Query = Query(pattern: Option<seq<byte>>, policy: Policy)

  /** What a step reports: what its walk asks for, at the time it is read. */
  datatype Filter = Filter(query: Query, now: Instant)

  ghost predicate Passes(f: Filter, slot: Slot)
  {
    && !f.query.policy.dueOnRead(slot.entry.expiresAt, f.now)
    && (f.query.pattern.Some? ==> Accepts(Tokens(f.query.pattern.value), slot.key))
  }

  lemma PassesIff(f: Filter, slot: Slot)
    ensures Passes(f, slot)
            <==> && !f.query.policy.dueOnRead(slot.entry.expiresAt, f.now)
                 && (f.query.pattern.Some? ==> Accepts(Tokens(f.query.pattern.value), slot.key))
  {
    hide Glob.Accepts, Glob.Tokens;
  }

  /** The keys among `slots` that pass, in order. */
  ghost function Passing(f: Filter, slots: seq<Slot>): seq<Key>
  {
    if slots == [] then []
    else
      var last := slots[|slots| - 1];
      Passing(f, slots[..|slots| - 1]) + if Passes(f, last) then [last.key] else []
  }

  lemma {:induction false} PassingHas(f: Filter, slots: seq<Slot>, slot: Slot)
    requires slot in slots && Passes(f, slot)
    ensures slot.key in Passing(f, slots)
  {
    hide Passes;
    var n := |slots| - 1;
    if slot != slots[n] {
      PassingHas(f, slots[..n], slot);
    }
  }

  lemma {:induction false} PassingOnly(f: Filter, slots: seq<Slot>, key: Key) returns (slot: Slot)
    requires key in Passing(f, slots)
    ensures slot in slots && slot.key == key && Passes(f, slot)
  {
    hide Passes;
    var n := |slots| - 1;
    if Passes(f, slots[n]) && slots[n].key == key {
      slot := slots[n];
    } else {
      slot := PassingOnly(f, slots[..n], key);
    }
  }

  lemma {:induction false} PassingJoins(f: Filter, a: seq<Slot>, b: seq<Slot>)
    ensures Passing(f, a + b) == Passing(f, a) + Passing(f, b)
  {
    hide Passes;
    if b == [] {
      assert a + b == a;
    } else {
      var n := |b| - 1;
      assert (a + b)[..|a + b| - 1] == a + b[..n];
      PassingJoins(f, a, b[..n]);
    }
  }

  /** The keys of one bucket visit that pass, appended. */
  method Report(f: Filter, visited: seq<Slot>, keys: seq<Key>) returns (keys': seq<Key>)
    ensures keys' == keys + Passing(f, visited)
  {
    hide Glob.Accepts, Glob.Tokens;
    keys' := keys;
    for i := 0 to |visited|
      invariant keys' == keys + Passing(f, visited[..i])
    {
      assert visited[..i + 1][..i] == visited[..i];
      var slot := visited[i];
      if !f.query.policy.dueOnRead(slot.entry.expiresAt, f.now) {
        var matches := true;
        if f.query.pattern.Some? {
          ghost var rounds;
          matches, rounds := Glob.Matches(f.query.pattern.value, slot.key);
        }
        if matches {
          keys' := keys' + [slot.key];
        }
      }
    }
    assert visited[..|visited|] == visited;
  }

  /** Visits up to `count` buckets from `cursor`, at least one, and reports the keys among them
      that pass. The shard is only read. */
  method ScanStep(d: Dict, cursor: Word, count: nat, f: Filter) returns (next: Word, keys: seq<Key>, visited: nat)
    requires d.Valid()
    ensures var w := Walk(d.State(), cursor, AtLeastOne(count));
            next == w.cursor && visited == w.steps && keys == Passing(f, w.slots)
  {
    hide K.Valid, Passing, Scans.Visits, Scans.NextCursor;
    ghost var s, budget := d.State(), AtLeastOne(count);
    ghost var slots: seq<Slot> := [];
    next, keys, visited := cursor, [], 0;
    NonePass(f);
    while visited < AtLeastOne(count)
      invariant visited <= budget && d.State() == s && d.Valid()
      invariant Walk(s, cursor, budget) == Then(slots, visited, Walk(s, next, budget - visited))
      invariant keys == Passing(f, slots)
    {
      visited := visited + 1;
      var slotsHere, next' := d.Scan(next);
      keys := Report(f, slotsHere, keys);
      PassingJoins(f, slots, slotsHere);
      slots := slots + slotsHere;
      next := next';
      if next == 0 {
        return;
      }
    }
    assert slots + [] == slots;
  }

  /** A stretch with some already done before it. */
  ghost function Then(slots: seq<Slot>, steps: nat, rest: Stretch): Stretch
  {
    Stretch(slots + rest.slots, rest.cursor, steps + rest.steps)
  }

  lemma NonePass(f: Filter)
    ensures Passing(f, []) == []
  {
  }
}
