/**
 What a crash may leave in one key: the states a history of writes says are possible, against
 every way the disk could have kept some prefix of what landed.
 */
module Durability {
  import opened Basics

  /** What a client believes about one key it owns. */
  datatype Known = Nothing | Absent | Value(bytes: seq<byte>) | Either(states: seq<Known>)

  type Instant = nat

  datatype Write = Write(state: Known, at: Instant, acknowledged: bool)

  // ---------- What the history answers ----------

  /** Where the write is that a durable point rests on, if it rests on any. */
  function Base(writes: seq<Write>, durableAt: Instant): (r: Option<nat>)
    ensures r.Some? ==> r.value < |writes| && writes[r.value].acknowledged && writes[r.value].at < durableAt
    ensures forall i :: 0 <= i < |writes| && writes[i].acknowledged && writes[i].at < durableAt
              ==> r.Some? && i <= r.value
  {
    if writes == [] then None
    else
      var n := |writes| - 1;
      if writes[n].acknowledged && writes[n].at < durableAt then Some(n) else Base(writes[..n], durableAt)
  }

  function States(writes: seq<Write>): (r: seq<Known>)
    ensures |r| == |writes| && forall i :: 0 <= i < |writes| ==> r[i] == writes[i].state
  {
    seq(|writes|, i requires 0 <= i < |writes| => writes[i].state)
  }

  /** The states a crash may leave: what the durable point rests on, or any write since. */
  function Candidates(writes: seq<Write>, durableAt: Option<Instant>): seq<Known>
  {
    var base := if durableAt.Some? then Base(writes, durableAt.value) else None;
    match base
    case Some(i) => [writes[i].state] + States(writes[i + 1..])
    case None => [Absent] + States(writes)
  }

  // ---------- What the disk can have kept ----------

  /** One way the world went: which writes landed, and how many of the writes were issued before
      the cut the disk kept up to. Acknowledged writes landed; those acknowledged before the
      durable point are inside the cut. */
  ghost predicate Outcome(writes: seq<Write>, durableAt: Option<Instant>, landed: seq<bool>, cut: nat)
  {
    && |landed| == |writes|
    && cut <= |writes|
    && (forall i :: 0 <= i < |writes| && writes[i].acknowledged ==> landed[i])
    && (durableAt.Some? ==>
          forall i :: 0 <= i < |writes| && writes[i].acknowledged && writes[i].at < durableAt.value ==> i < cut)
  }

  /** The state the disk then holds: that of the last landed write it kept. */
  function OnDisk(writes: seq<Write>, landed: seq<bool>, cut: nat): Known
    requires |landed| == |writes| && cut <= |writes|
  {
    if cut == 0 then Absent
    else if landed[cut - 1] then writes[cut - 1].state
    else OnDisk(writes, landed, cut - 1)
  }

  /** The last landed write before the cut, if the one at `i` landed and is before it. */
  lemma {:induction false} KeptFrom(writes: seq<Write>, landed: seq<bool>, cut: nat, i: nat) returns (j: nat)
    requires |landed| == |writes| && i < cut <= |writes| && landed[i]
    ensures i <= j < cut && OnDisk(writes, landed, cut) == writes[j].state
    decreases cut
  {
    if landed[cut - 1] {
      j := cut - 1;
    } else {
      j := KeptFrom(writes, landed, cut - 1, i);
    }
  }

  lemma {:induction false} KeptSomeOrNone(writes: seq<Write>, landed: seq<bool>, cut: nat) returns (j: Option<nat>)
    requires |landed| == |writes| && cut <= |writes|
    ensures match j
            case Some(i) => i < |writes| && OnDisk(writes, landed, cut) == writes[i].state
            case None => OnDisk(writes, landed, cut) == Absent
    decreases cut
  {
    if cut == 0 {
      j := None;
    } else if landed[cut - 1] {
      j := Some(cut - 1);
    } else {
      j := KeptSomeOrNone(writes, landed, cut - 1);
    }
  }

  /** Whatever happened, the state on disk is one of the candidates. */
  lemma EveryOutcomeIsACandidate(writes: seq<Write>, durableAt: Option<Instant>, landed: seq<bool>, cut: nat)
    requires Outcome(writes, durableAt, landed, cut)
    ensures OnDisk(writes, landed, cut) in Candidates(writes, durableAt)
  {
    hide OnDisk, Base;
    var base := if durableAt.Some? then Base(writes, durableAt.value) else None;
    var candidates := Candidates(writes, durableAt);
    if base.Some? {
      var j := KeptFrom(writes, landed, cut, base.value);
      var c := j - base.value;
      if c > 0 {
        assert writes[base.value + 1..][c - 1] == writes[j];
      }
      assert candidates[c] == writes[j].state;
    } else {
      var j := KeptSomeOrNone(writes, landed, cut);
      var c := if j.Some? then j.value + 1 else 0;
      assert candidates[c] == OnDisk(writes, landed, cut);
    }
  }

  /** Every acknowledged write landed, and of the others only, perhaps, the one at `also`. */
  function Landed(writes: seq<Write>, also: Option<nat>): (r: seq<bool>)
    ensures |r| == |writes|
    ensures forall i :: 0 <= i < |writes| ==> r[i] == (writes[i].acknowledged || also == Some(i))
  {
    seq(|writes|, i requires 0 <= i < |writes| => writes[i].acknowledged || also == Some(i))
  }

  /** How many writes a durable point puts inside every cut. */
  function Settled(writes: seq<Write>, durableAt: Option<Instant>): (n: nat)
    ensures n <= |writes|
    ensures durableAt.Some? ==>
              forall i :: 0 <= i < |writes| && writes[i].acknowledged && writes[i].at < durableAt.value ==> i < n
    ensures n > 0 ==> writes[n - 1].acknowledged
  {
    if durableAt.Some? && Base(writes, durableAt.value).Some? then Base(writes, durableAt.value).value + 1 else 0
  }

  /** The candidates are the state the durable point settles on, then every write after it. */
  lemma CandidatesFrom(writes: seq<Write>, durableAt: Option<Instant>)
    ensures var n := Settled(writes, durableAt);
            Candidates(writes, durableAt) == [if n == 0 then Absent else writes[n - 1].state] + States(writes[n..])
  {
    hide Base, States;
    assert writes[0..] == writes;
  }

  lemma CandidateAt(writes: seq<Write>, durableAt: Option<Instant>, c: nat)
    requires c < |Candidates(writes, durableAt)|
    ensures var cut := Settled(writes, durableAt) + c;
            && cut <= |writes|
            && Candidates(writes, durableAt)[c] == if cut == 0 then Absent else writes[cut - 1].state
  {
    hide Candidates, States;
    CandidatesFrom(writes, durableAt);
    var rest := writes[Settled(writes, durableAt)..];
    if c > 0 {
      assert States(rest)[c - 1] == rest[c - 1].state;
    }
  }

  /** Every candidate is the state of some outcome. */
  lemma EveryCandidateIsAnOutcome(writes: seq<Write>, durableAt: Option<Instant>, c: nat)
    returns (landed: seq<bool>, cut: nat)
    requires c < |Candidates(writes, durableAt)|
    ensures Outcome(writes, durableAt, landed, cut)
    ensures OnDisk(writes, landed, cut) == Candidates(writes, durableAt)[c]
  {
    hide Settled, Landed, Candidates;
    CandidateAt(writes, durableAt, c);
    cut := Settled(writes, durableAt) + c;
    landed := Landed(writes, if cut == 0 then None else Some(cut - 1));
  }

  /** The candidates are exactly the states reachable when the disk keeps some prefix of the
      landed writes that includes every write acknowledged before the durable point. */
  lemma CandidatesAreExact(writes: seq<Write>, durableAt: Option<Instant>, k: Known)
    ensures k in Candidates(writes, durableAt)
            <==> exists landed, cut :: Outcome(writes, durableAt, landed, cut) && OnDisk(writes, landed, cut) == k
  {
    if k in Candidates(writes, durableAt) {
      var c :| 0 <= c < |Candidates(writes, durableAt)| && Candidates(writes, durableAt)[c] == k;
      var landed, cut := EveryCandidateIsAnOutcome(writes, durableAt, c);
    }
    forall landed, cut | Outcome(writes, durableAt, landed, cut) && OnDisk(writes, landed, cut) == k
      ensures k in Candidates(writes, durableAt)
    {
      EveryOutcomeIsACandidate(writes, durableAt, landed, cut);
    }
  }

  // ---------- Pruning ----------

  datatype Note =
    | Acked(state: Known, at: Instant, durableAt: Option<Instant>)
    | Unacked(state: Known, at: Instant)

  /** The write a note stands for. */
  function WriteOf(note: Note): Write
  {
    match note
    case Acked(state, at, _) => Write(state, at, true)
    case Unacked(state, at) => Write(state, at, false)
  }

  /** Drops what a durable point makes unreachable. */
  function Prune(writes: seq<Write>, durableAt: Option<Instant>): seq<Write>
  {
    if durableAt.Some? && Base(writes, durableAt.value).Some? then writes[Base(writes, durableAt.value).value..]
    else writes
  }

  function Noted(writes: seq<Write>, note: Note): seq<Write>
  {
    var all := writes + [WriteOf(note)];
    if note.Acked? then Prune(all, note.durableAt) else all
  }

  /** The history as it is kept, pruned as it grows. */
  function Kept(notes: seq<Note>): seq<Write>
  {
    if notes == [] then [] else Noted(Kept(notes[..|notes| - 1]), notes[|notes| - 1])
  }

  /** The history nothing was ever dropped from. */
  function Full(notes: seq<Note>): (r: seq<Write>)
    ensures |r| == |notes|
  {
    seq(|notes|, i requires 0 <= i < |notes| => WriteOf(notes[i]))
  }

  /** No durable point reported while the history grew is later than `d`. */
  predicate Reported(notes: seq<Note>, d: Instant)
  {
    forall i :: 0 <= i < |notes| && notes[i].Acked? && notes[i].durableAt.Some? ==> notes[i].durableAt.value <= d
  }

  /** How many writes have been dropped. */
  function Dropped(notes: seq<Note>): int
  {
    |notes| - |Kept(notes)|
  }

  /** Whatever was reported, what is kept is the full history from some write on. */
  lemma {:induction false} KeptIsASuffix(notes: seq<Note>)
    ensures 0 <= Dropped(notes) <= |notes| && Kept(notes) == Full(notes)[Dropped(notes)..]
    decreases |notes|
  {
    hide Base;
    if notes != [] {
      var n := |notes| - 1;
      KeptIsASuffix(notes[..n]);
      var all := Kept(notes[..n]) + [WriteOf(notes[n])];
      assert Full(notes) == Full(notes[..n]) + [WriteOf(notes[n])];
      assert all == Full(notes)[Dropped(notes[..n])..];
    }
  }

  /** If anything was dropped, the first write kept is durable at some point that was reported. */
  lemma {:induction false} KeptStartsDurable(notes: seq<Note>, d: Instant)
    requires Reported(notes, d)
    ensures Dropped(notes) > 0 ==> Kept(notes) != [] && Kept(notes)[0].acknowledged && Kept(notes)[0].at < d
    decreases |notes|
  {
    hide Base;
    if notes != [] {
      var n := |notes| - 1;
      KeptIsASuffix(notes[..n]);
      KeptStartsDurable(notes[..n], d);
    }
  }

  /** Nothing was dropped; or a write still kept is durable by then; or the last write dropped is
      the durable one and it left the key absent, which is what is answered for want of it. */
  ghost predicate Unseen(notes: seq<Note>, durableAt: Option<Instant>)
    requires 0 <= Dropped(notes) <= |notes|
  {
    var k := Dropped(notes);
    || k == 0
    || (durableAt.Some? &&
        (|| (exists i :: k <= i < |notes| && DurableBy(notes[i], durableAt.value))
         || (Base(Full(notes), durableAt.value) == Some(k - 1) && notes[k - 1].state == Absent)))
  }

  predicate DurableBy(note: Note, d: Instant)
  {
    note.Acked? && note.at < d
  }

  lemma SettledOfSuffix(full: seq<Write>, k: nat, durableAt: Option<Instant>)
    requires k <= |full|
    ensures var n := Settled(full, durableAt); Settled(full[k..], durableAt) == if n > k then n - k else 0
  {
    hide Base;
    if durableAt.Some? {
      var kept, d := full[k..], durableAt.value;
      var a, b := Base(kept, d), Base(full, d);
      if a.Some? {
        assert full[k + a.value] == kept[a.value];
      }
      if b.Some? && b.value >= k {
        assert kept[b.value - k] == full[b.value];
      }
    }
  }

  /** What a suffix of a history answers, against what the history answers. */
  lemma SuffixAnswers(full: seq<Write>, k: nat, durableAt: Option<Instant>)
    requires k <= |full|
    ensures var n := Settled(full, durableAt);
            Candidates(full[k..], durableAt) == Candidates(full, durableAt)
            <==> k == 0 || n > k || (n == k && full[k - 1].state == Absent)
  {
    hide Settled, Candidates;
    var kept, n := full[k..], Settled(full, durableAt);
    SettledOfSuffix(full, k, durableAt);
    CandidatesFrom(full, durableAt);
    CandidatesFrom(kept, durableAt);
    if k == 0 {
      assert kept == full;
    } else if n > k {
      assert kept[n - k - 1] == full[n - 1] && kept[n - k..] == full[n..];
    } else {
      assert kept[0..] == kept;
      assert Candidates(kept, durableAt)[0] == Absent;
      assert |Candidates(full, durableAt)| == |full| - n + 1;
    }
  }

  /** Pruning changes no answer exactly when it is unseen: for every history, known durable point
      or none. */
  lemma PruningIsInvisibleIff(notes: seq<Note>, durableAt: Option<Instant>)
    ensures 0 <= Dropped(notes) <= |notes|
    ensures Candidates(Kept(notes), durableAt) == Candidates(Full(notes), durableAt) <==> Unseen(notes, durableAt)
  {
    hide Base, Kept, Candidates, Settled, Unseen, Full;
    KeptIsASuffix(notes);
    SuffixAnswers(Full(notes), Dropped(notes), durableAt);
    UnseenMeans(notes, durableAt);
  }

  lemma UnseenMeans(notes: seq<Note>, durableAt: Option<Instant>)
    requires 0 <= Dropped(notes) <= |notes|
    ensures var full, n, k := Full(notes), Settled(Full(notes), durableAt), Dropped(notes);
            Unseen(notes, durableAt) <==> k == 0 || n > k || (n == k && full[k - 1].state == Absent)
  {
    hide Base, Kept, Dropped;
    var full, k := Full(notes), Dropped(notes);
    if durableAt.Some? {
      var d, n := durableAt.value, Settled(full, durableAt);
      if n > k {
        assert DurableBy(notes[n - 1], d);
      }
      if i :| k <= i < |notes| && DurableBy(notes[i], d) {
        assert full[i].acknowledged && full[i].at < d;
      }
    }
  }

  /** So it changes no answer for any durable point at or after the ones it was pruned at. */
  lemma PruningIsInvisible(notes: seq<Note>, d: Instant)
    requires Reported(notes, d)
    ensures Candidates(Kept(notes), Some(d)) == Candidates(Full(notes), Some(d))
  {
    hide Kept, Candidates, Base;
    PruningIsInvisibleIff(notes, Some(d));
    KeptIsASuffix(notes);
    KeptStartsDurable(notes, d);
    var k := Dropped(notes);
    if k > 0 {
      assert Full(notes)[k] == Kept(notes)[0];
      assert DurableBy(notes[k], d);
    }
  }

  /** Four writes, the first of which the third's durable point drops. */
  function FourNotes(): seq<Note>
  {
    [Acked(Value([1]), 1, None), Acked(Value([2]), 2, Some(2)), Acked(Value([3]), 3, Some(3)), Unacked(Value([4]), 4)]
  }

  lemma KeptGrows(notes: seq<Note>, note: Note)
    ensures Kept(notes + [note]) == Noted(Kept(notes), note)
  {
    assert (notes + [note])[..|notes|] == notes;
  }

  lemma FourNotesKept()
    ensures Kept(FourNotes()) == Full(FourNotes())[1..]
  {
    hide Base, Kept;
    var notes := FourNotes();
    var w1, w2, w3, w4 := WriteOf(notes[0]), WriteOf(notes[1]), WriteOf(notes[2]), WriteOf(notes[3]);
    NothingKept();
    KeptGrows([], notes[0]);
    assert [] + [notes[0]] == [notes[0]];
    KeptGrows([notes[0]], notes[1]);
    assert [w1, w2][0].at < 2;
    assert Kept([notes[0]] + [notes[1]]) == [w1, w2];
    KeptGrows([notes[0]] + [notes[1]], notes[2]);
    assert [w1, w2] + [w3] == [w1, w2, w3] && [w1, w2, w3][1].at < 3;
    assert Base([w1, w2, w3], 3) == Some(1);
    assert [w1, w2, w3][1..] == [w2, w3];
    assert Kept([notes[0]] + [notes[1]] + [notes[2]]) == [w2, w3];
    KeptGrows([notes[0]] + [notes[1]] + [notes[2]], notes[3]);
    assert notes == [notes[0]] + [notes[1]] + [notes[2]] + [notes[3]];
  }

  lemma NothingKept()
    ensures Kept([]) == []
  {
  }

  /** For an earlier durable point, or for none known, a state that could still be on disk as far
      as that point says is no longer answered. */
  lemma PruningForgets(durableAt: Option<Instant>)
    requires durableAt == None || durableAt == Some(2)
    ensures Value([1]) in Candidates(Full(FourNotes()), durableAt)
    ensures Value([1]) !in Candidates(Kept(FourNotes()), durableAt)
  {
    hide Base, Kept;
    var notes := FourNotes();
    var full := Full(notes);
    FourNotesKept();
    assert full[0].at < 2;
    if durableAt.Some? {
      assert Base(full, 2) == Some(0);
      assert Base(full[1..], 2) == None;
      assert Candidates(full, durableAt)[0] == Value([1]);
    } else {
      assert Candidates(full, durableAt)[1] == Value([1]);
    }
    var kept := Candidates(full[1..], durableAt);
    assert kept == [Absent] + States(full[1..]);
    forall i | 0 <= i < |kept| ensures kept[i] != Value([1]) {
      if i > 0 {
        assert kept[i] == full[i].state;
        assert full[i].state.bytes[0] != 1;
      }
    }
  }

  /** A write nobody acknowledged is one more candidate, and no durable point rests on it. */
  lemma UnackedAddsOne(writes: seq<Write>, w: Write)
    requires !w.acknowledged
    ensures forall d :: Base(writes + [w], d) == Base(writes, d)
    ensures forall d :: Candidates(writes + [w], d) == Candidates(writes, d) + [w.state]
  {
    hide Candidates;
    var more := writes + [w];
    assert more[..|writes|] == writes;
    forall d ensures Candidates(more, d) == Candidates(writes, d) + [w.state] {
      CandidatesFrom(more, d);
      CandidatesFrom(writes, d);
      var n := Settled(writes, d);
      assert more[n..] == writes[n..] + [w];
      assert States(more[n..]) == States(writes[n..]) + [w.state];
    }
  }

  // ---------- The history, as it runs ----------

  class SlotHistory {
    var writes: seq<Write>

    constructor ()
      ensures writes == Kept([])
    {
      writes := [];
    }

    method Record(known: Known, acked: Instant, durableAt: Option<Instant>)
      modifies this
      ensures writes == Noted(old(writes), Acked(known, acked, durableAt))
    {
      writes := writes + [Write(known, acked, true)];
      if durableAt.Some? {
        var keepFrom := LastBase(durableAt.value);
        if keepFrom.Some? {
          writes := writes[keepFrom.value..];
        }
      }
    }

    method RecordUnacknowledged(known: Known, at: Instant)
      modifies this
      ensures writes == Noted(old(writes), Unacked(known, at))
      ensures forall d :: Base(writes, d) == Base(old(writes), d)
      ensures forall d :: Candidates(writes, d) == Candidates(old(writes), d) + [known]
    {
      UnackedAddsOne(writes, Write(known, at, false));
      writes := writes + [Write(known, at, false)];
    }

    /** The last acknowledged write before `durableAt`, searched from the back. */
    method LastBase(durableAt: Instant) returns (r: Option<nat>)
      ensures r == Base(writes, durableAt)
    {
      var i := |writes|;
      assert writes[..i] == writes;
      while i > 0
        invariant i <= |writes| && Base(writes, durableAt) == Base(writes[..i], durableAt)
      {
        i := i - 1;
        if writes[i].acknowledged && writes[i].at < durableAt {
          return Some(i);
        }
        assert writes[..i + 1][..i] == writes[..i];
      }
      return None;
    }

    method CandidateStates(durableAt: Option<Instant>) returns (candidates: seq<Known>)
      ensures candidates == Candidates(writes, durableAt)
    {
      var base: Option<nat> := None;
      if durableAt.Some? {
        base := LastBase(durableAt.value);
      }
      var durable := if base.Some? then writes[base.value].state else Absent;
      var after := if base.Some? then base.value + 1 else 0;
      candidates := [durable];
      for i := after to |writes|
        invariant candidates == [durable] + States(writes[after..i])
      {
        assert States(writes[after..i + 1]) == States(writes[after..i]) + [writes[i].state];
        candidates := candidates + [writes[i].state];
      }
      assert writes[after..|writes|] == writes[after..] && writes[0..] == writes;
    }
  }
}
