/**
 Chunk boundaries carry no meaning: whatever bytes are fed, however they are split, the frames
 delivered and the verdict are those of feeding them whole.
 */
module RespChunks {
  import opened Basics
  import opened Decimals
  import opened Resp
  import opened RespMachine

  // ---------- What more bytes cannot change ----------

  lemma {:induction false} CrlfExtends(s: seq<byte>, x: seq<byte>, i: nat)
    requires FirstCrlf(s, i).Some?
    ensures FirstCrlf(s + x, i) == FirstCrlf(s, i)
    decreases |s| - i
  {
    if !CrlfAt(s, i) {
      CrlfExtends(s, x, i + 1);
    }
  }

  lemma {:induction false} CrlfWithin(s: seq<byte>, x: seq<byte>, i: nat)
    requires FirstCrlf(s + x, i).Some? && FirstCrlf(s + x, i).value + 2 <= |s|
    ensures FirstCrlf(s, i) == FirstCrlf(s + x, i)
    decreases |s| - i
  {
    if !CrlfAt(s, i) {
      CrlfWithin(s, x, i + 1);
    }
  }

  lemma LineExtends(rules: Rules, depth: nat, inMemory: nat, s: seq<byte>, x: seq<byte>, end: nat)
    requires 1 <= end && CrlfAt(s, end) && IsKind(s[0])
    ensures CrlfAt(s + x, end)
    ensures var r, r' := ReadLine(rules, depth, inMemory, s, end), ReadLine(rules, depth, inMemory, s + x, end);
            (!r.More? ==> r' == r) && (r'.Got? && r'.size <= |s| ==> r == r')
  {
    hide BulkHeader, ArrayCount, Decimals.ParseI64;
    assert (s + x)[1..end] == s[1..end];
    match BulkHeader(rules, inMemory, s[1..end])
    case Length(len) =>
      if end + 2 + len + 2 <= |s| {
        assert (s + x)[end + 2 + len..end + 2 + len + 2] == s[end + 2 + len..end + 2 + len + 2];
        assert (s + x)[end + 2..end + 2 + len] == s[end + 2..end + 2 + len];
      }
    case _ =>
  }

  lemma ReadExtends(rules: Rules, depth: nat, inMemory: nat, s: seq<byte>, x: seq<byte>)
    ensures var r, r' := ReadElement(rules, depth, inMemory, s), ReadElement(rules, depth, inMemory, s + x);
            (!r.More? ==> r' == r) && (r'.Got? && r'.size <= |s| ==> r == r')
  {
    hide ReadLine, FirstCrlf;
    if s != [] && IsKind(s[0]) {
      var end := FirstCrlf(s, 1);
      if end.Some? {
        CrlfExtends(s, x, 1);
        LineExtends(rules, depth, inMemory, s, x, end.value);
      } else if FirstCrlf(s + x, 1).Some? {
        var end' := FirstCrlf(s + x, 1).value;
        if end' + 2 <= |s| {
          CrlfWithin(s, x, 1);
        }
        LineTakesItsEnd(rules, depth, inMemory, s + x, end');
      }
    }
  }

  lemma LineTakesItsEnd(rules: Rules, depth: nat, inMemory: nat, s: seq<byte>, end: nat)
    requires 1 <= end && CrlfAt(s, end) && IsKind(s[0])
    ensures var r := ReadLine(rules, depth, inMemory, s, end); r.Got? ==> end + 2 <= r.size
  {
  }

  /** A move once possible stays the same move, and one that needed no byte of `x` was possible
      without it. */
  lemma AdvanceExtends(rules: Rules, m: Machine, a: seq<byte>, x: seq<byte>)
    ensures var r, r' := Advance(rules, m, a), Advance(rules, m, a + x);
            (!r.Stuck? ==> r' == r) && ((r'.On? || r'.Whole?) && r'.size <= |a| ==> r == r')
  {
    hide ReadElement, Place;
    ReadExtends(rules, |m.stack|, m.inMemory, a, x);
    if a == [] {
      NothingRead(rules, |m.stack|, m.inMemory);
    }
  }

  lemma NothingRead(rules: Rules, depth: nat, inMemory: nat)
    ensures ReadElement(rules, depth, inMemory, []) == More
  {
  }

  // ---------- A frame past the limit ----------

  /** Every part of a frame counts towards it. */
  lemma {:induction false} PutKeepsUsed(rules: Rules, m: Machine, f: Frame)
    ensures var p := Put(rules, m, f);
            && (p.Owing? ==> p.machine.used == m.used && p.machine.stack != [])
            && (p.Complete? ==> p.used == m.used)
    decreases |m.stack|
  {
    if m.stack != [] && m.stack[|m.stack| - 1].remaining <= 1 && Affords(rules, m.inMemory, NodeCost(rules, f)) {
      var top := m.stack[|m.stack| - 1];
      PutKeepsUsed(rules, Machine(m.stack[..|m.stack| - 1], m.inMemory + NodeCost(rules, f), m.used),
                   Array(top.elements + [f]));
    }
  }

  lemma PlaceKeepsUsed(rules: Rules, m: Machine, e: Element)
    ensures var p := Place(rules, m, e);
            && (p.Owing? ==> p.machine.used == m.used && p.machine.stack != [])
            && (p.Complete? ==> p.used == m.used)
  {
    hide Put;
    PutKeepsUsed(rules, m, if e.Value? then e.frame else Array([]));
  }

  /** A frame with more than the limit consumed is refused whatever follows. */
  lemma {:induction false} OverLimitIsRefused(rules: Rules, m: Machine, rest: seq<byte>)
    requires m.used > rules.maxFrameBytes && m.stack != []
    ensures NextFrame(rules, m, rest) == Refused
    decreases |rest|
  {
    hide ReadElement, Place, Advance, NextFrame;
    NextReads(rules, m, rest);
    var r := ReadElement(rules, |m.stack|, m.inMemory, rest);
    if r.Got? {
      PlaceKeepsUsed(rules, m.(used := m.used + r.size), r.element);
      var p := Place(rules, m.(used := m.used + r.size), r.element);
      if p.Owing? {
        OverLimitIsRefused(rules, p.machine, rest[r.size..]);
      }
    }
  }

  lemma StuckIsNoLine(rules: Rules, m: Machine, a: seq<byte>, x: seq<byte>)
    requires Advance(rules, m, a).Stuck? && (m.stack == [] ==> |a| >= 2)
    ensures m.stack == [] ==> a + x != [CR] && !CrlfAt(a + x, 0)
  {
    hide ReadElement, Place;
  }

  /** Refusing a frame that is still arriving refuses nothing that could have been whole. */
  lemma StuckOverLimitIsRefused(rules: Rules, m: Machine, a: seq<byte>, x: seq<byte>)
    requires rules.maxFrameBytes >= 1 && (m.stack == [] ==> m.used == 0)
    requires Advance(rules, m, a).Stuck? && m.used + |a| > rules.maxFrameBytes
    ensures NextFrame(rules, m, a + x) == Refused
  {
    hide ReadElement, Place, Advance, NextFrame;
    AdvanceExtends(rules, m, a, x);
    StuckIsNoLine(rules, m, a, x);
    AdvanceReads(rules, m, a + x);
    NextReads(rules, m, a + x);
    var r := ReadElement(rules, |m.stack|, m.inMemory, a + x);
    if r.Got? {
      PlaceKeepsUsed(rules, m.(used := m.used + r.size), r.element);
      var p := Place(rules, m.(used := m.used + r.size), r.element);
      if p.Owing? {
        OverLimitIsRefused(rules, p.machine, (a + x)[r.size..]);
      }
    }
  }

  // ---------- Two chunks ----------

  /** Between frames nothing of a frame has been consumed. */
  predicate Settled(m: Machine)
  {
    m.stack == [] ==> m.used == 0 && m.inMemory == 0
  }

  lemma AdvanceSettles(rules: Rules, m: Machine, rest: seq<byte>)
    requires Settled(m)
    ensures var r := Advance(rules, m, rest); r.On? ==> Settled(r.machine)
  {
    hide ReadElement, Place;
    var r := ReadElement(rules, |m.stack|, m.inMemory, rest);
    if r.Got? {
      PlaceKeepsUsed(rules, m.(used := m.used + r.size), r.element);
    }
  }

  /** More bytes never take back a frame or a refusal, and a decoder that waits goes on from
      where it waits. */
  lemma {:induction false} NextExtends(rules: Rules, m: Machine, a: seq<byte>, x: seq<byte>)
    requires rules.maxFrameBytes >= 1 && Settled(m)
    ensures match NextFrame(rules, m, a)
            case Refused => NextFrame(rules, m, a + x) == Refused
            case Delivered(f, rest) => NextFrame(rules, m, a + x) == Delivered(f, rest + x)
            case Waiting(m', rest) => Settled(m') && NextFrame(rules, m, a + x) == NextFrame(rules, m', rest + x)
    decreases |a|
  {
    hide Advance;
    AdvanceExtends(rules, m, a, x);
    match Advance(rules, m, a) {
      case Fail =>
      case Stuck =>
        if m.used + |a| > rules.maxFrameBytes {
          StuckOverLimitIsRefused(rules, m, a, x);
        }
      case On(m', size) =>
        AdvanceSettles(rules, m, a);
        assert (a + x)[size..] == a[size..] + x;
        NextExtends(rules, m', a[size..], x);
      case Whole(f, size) =>
        assert (a + x)[size..] == a[size..] + x;
    }
  }

  /** Feeding a decoder that has drained its bytes is feeding it the rest first. */
  function Feed(rules: Rules, end: End, chunk: seq<byte>): (seq<Frame>, End)
  {
    match end
    case Stopped => ([], Stopped)
    case Open(m, rest) => Drain(rules, m, rest + chunk)
  }

  lemma {:induction false} DrainExtends(rules: Rules, m: Machine, a: seq<byte>, x: seq<byte>)
    requires rules.maxFrameBytes >= 1 && Settled(m)
    ensures var (first, end) := Drain(rules, m, a);
            var (second, end') := Feed(rules, end, x);
            && (end.Open? ==> Settled(end.machine))
            && Drain(rules, m, a + x) == (first + second, end')
    decreases |a|
  {
    hide NextFrame;
    var none: seq<Frame> := [];
    NextExtends(rules, m, a, x);
    match NextFrame(rules, m, a) {
      case Refused =>
        assert none + none == none;
      case Waiting(m', rest) =>
        assert none + Feed(rules, Open(m', rest), x).0 == Feed(rules, Open(m', rest), x).0;
      case Delivered(f, rest) =>
        DrainExtends(rules, FRESH, rest, x);
        var (first, end) := Drain(rules, FRESH, rest);
        assert [f] + (first + Feed(rules, end, x).0) == [f] + first + Feed(rules, end, x).0;
    }
  }

  // ---------- Any number of chunks ----------

  /** Chunk after chunk, drained after each. */
  function FeedAll(rules: Rules, end: End, chunks: seq<seq<byte>>): (seq<Frame>, End)
    decreases |chunks|
  {
    if chunks == [] then ([], end)
    else
      var (first, end') := Feed(rules, end, chunks[0]);
      var (rest, end'') := FeedAll(rules, end', chunks[1..]);
      (first + rest, end'')
  }

  function Concat(chunks: seq<seq<byte>>): seq<byte>
  {
    if chunks == [] then [] else chunks[0] + Concat(chunks[1..])
  }

  /** Waiting is stable: draining again without new bytes changes nothing. */
  predicate Rested(rules: Rules, end: End)
  {
    end.Open? ==> Settled(end.machine) && NextFrame(rules, end.machine, end.rest) == Waiting(end.machine, end.rest)
  }

  lemma {:induction false} WaitsWhereItWaits(rules: Rules, m: Machine, a: seq<byte>)
    requires Settled(m)
    ensures var r := NextFrame(rules, m, a);
            r.Waiting? ==> Settled(r.machine) && NextFrame(rules, r.machine, r.rest) == r
    decreases |a|
  {
    hide Advance;
    var r := Advance(rules, m, a);
    if r.On? {
      AdvanceSettles(rules, m, a);
      WaitsWhereItWaits(rules, r.machine, a[r.size..]);
    }
  }

  lemma {:induction false} DrainRests(rules: Rules, m: Machine, a: seq<byte>)
    requires Settled(m)
    ensures Rested(rules, Drain(rules, m, a).1)
    decreases |a|
  {
    hide NextFrame;
    WaitsWhereItWaits(rules, m, a);
    var r := NextFrame(rules, m, a);
    if r.Delivered? {
      DrainRests(rules, FRESH, r.rest);
    }
  }

  lemma {:induction false} ChunksAreWhole(rules: Rules, end: End, chunks: seq<seq<byte>>)
    requires rules.maxFrameBytes >= 1 && Rested(rules, end)
    ensures FeedAll(rules, end, chunks) == Feed(rules, end, Concat(chunks))
    decreases |chunks|
  {
    hide NextFrame;
    if chunks == [] {
      if end.Open? {
        assert end.rest + [] == end.rest;
      }
    } else if end.Open? {
      var a, x := end.rest + chunks[0], Concat(chunks[1..]);
      DrainRests(rules, end.machine, a);
      DrainExtends(rules, end.machine, a, x);
      ChunksAreWhole(rules, Drain(rules, end.machine, a).1, chunks[1..]);
      assert end.rest + (chunks[0] + x) == a + x;
    } else {
      OnceStopped(rules, chunks);
    }
  }

  /** Two ways of splitting the same bytes deliver the same frames, reach the same verdict and
      leave the decoder in the same state. */
  lemma ChunkingIsInvisible(rules: Rules, chunks: seq<seq<byte>>, chunks': seq<seq<byte>>)
    requires rules.maxFrameBytes >= 1 && Concat(chunks) == Concat(chunks')
    ensures FeedAll(rules, Open(FRESH, []), chunks) == FeedAll(rules, Open(FRESH, []), chunks')
  {
    hide Concat, FeedAll, Feed;
    FreshRests(rules);
    ChunksAreWhole(rules, Open(FRESH, []), chunks);
    ChunksAreWhole(rules, Open(FRESH, []), chunks');
  }

  lemma FreshRests(rules: Rules)
    ensures Rested(rules, Open(FRESH, []))
  {
    NothingRead(rules, 0, 0);
  }

  // ---------- Where it fails ----------

  /** With no byte allowed to a frame, a line end split between two chunks is refused where the
      same line end in one chunk is skipped. */
  lemma SplitLineEndIsRefused(rules: Rules)
    requires rules.maxFrameBytes == 0
    ensures Concat([[CR], [LF]]) == Concat([CRLF])
    ensures FeedAll(rules, Open(FRESH, []), [[CR], [LF]]).1 == Stopped
    ensures FeedAll(rules, Open(FRESH, []), [CRLF]).1 == Open(FRESH, [])
  {
    var whole: seq<byte> := [] + CRLF;
    assert whole == CRLF;
    assert CrlfAt(whole, 0);
    assert whole[2..] == [];
    assert Advance(rules, FRESH, whole) == On(FRESH, 2);
    NothingRead(rules, 0, 0);
    assert NextFrame(rules, FRESH, []) == Waiting(FRESH, []);
    assert NextFrame(rules, FRESH, whole) == Waiting(FRESH, []);
    assert [CRLF][1..] == [];
    assert FeedAll(rules, Open(FRESH, []), [CRLF]).1 == Feed(rules, Open(FRESH, []), CRLF).1;
    var half: seq<byte> := [] + [CR];
    assert half == [CR];
    assert NextFrame(rules, FRESH, half) == Refused;
    assert Feed(rules, Open(FRESH, []), [CR]) == ([], Stopped);
    OnceStopped(rules, [[LF]]);
    assert [[CR], [LF]][1..] == [[LF]];
  }

  lemma {:induction false} OnceStopped(rules: Rules, chunks: seq<seq<byte>>)
    ensures FeedAll(rules, Stopped, chunks) == ([], Stopped)
    decreases |chunks|
  {
    if chunks != [] {
      OnceStopped(rules, chunks[1..]);
      var none: seq<Frame> := [];
      assert none + none == none;
    }
  }

  ghost predicate NeverMatters(rules: Rules)
  {
    forall chunks, chunks' :: Concat(chunks) == Concat(chunks') ==>
      FeedAll(rules, Open(FRESH, []), chunks) == FeedAll(rules, Open(FRESH, []), chunks')
  }

  /** Chunking never matters exactly when a frame is allowed at least one byte. */
  lemma ChunkingIsInvisibleIff(rules: Rules)
    ensures NeverMatters(rules) <==> rules.maxFrameBytes >= 1
  {
    hide FeedAll, Concat;
    if rules.maxFrameBytes >= 1 {
      forall chunks, chunks' | Concat(chunks) == Concat(chunks')
        ensures FeedAll(rules, Open(FRESH, []), chunks) == FeedAll(rules, Open(FRESH, []), chunks')
      {
        ChunkingIsInvisible(rules, chunks, chunks');
      }
    } else {
      SplitLineEndIsRefused(rules);
    }
  }
}
