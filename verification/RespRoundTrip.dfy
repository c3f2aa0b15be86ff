/**
 Round trips: a frame within the limits, in any spelling and followed by any bytes, is read as that
 frame and takes exactly its own bytes. So what is written is read back, and every proper prefix of
 it asks for more.
 */
module RespRoundTrip {
  import opened Basics
  import opened Decimals
  import opened Resp
  import opened RespMachine
  import opened RespChunks
  import opened RespLimits
  import opened Spellings

  // ---------- Lines ----------

  lemma {:induction false} FirstIs(s: seq<byte>, i: nat, end: nat)
    requires i <= end && CrlfAt(s, end) && forall j :: i <= j < end ==> !CrlfAt(s, j)
    ensures FirstCrlf(s, i) == Some(end)
    decreases end - i
  {
    if i < end {
      assert !CrlfAt(s, i);
      FirstIs(s, i + 1, end);
    }
  }

  /** A line is read up to its own end exactly when no line end is inside it. */
  lemma LineEnds(kind: byte, field: seq<byte>, x: seq<byte>)
    ensures FirstCrlf(Line(kind, field) + x, 1) == Some(1 + |field|) <==> PairFree(field)
    ensures CrlfAt(Line(kind, field) + x, 1 + |field|) && (Line(kind, field) + x)[1..1 + |field|] == field
  {
    var s, end := Line(kind, field) + x, 1 + |field|;
    assert s[end] == CR && s[end + 1] == LF;
    if PairFree(field) {
      forall j | 1 <= j < end ensures !CrlfAt(s, j) {
        assert s[j] == field[j - 1];
        assert !CrlfAt(field, j - 1);
        assert j + 1 < end ==> s[j + 1] == field[j];
      }
      FirstIs(s, 1, end);
    }
    assert s[1..end] == field;
    if FirstCrlf(s, 1) == Some(end) {
      FieldIsPairFree(s, end);
    }
  }

  /** An element's own bytes, read. */
  lemma LineReads(rules: Rules, depth: nat, inMemory: nat, kind: byte, field: seq<byte>, x: seq<byte>)
    requires IsKind(kind) && PairFree(field)
    ensures var s, end := Line(kind, field) + x, 1 + |field|;
            && CrlfAt(s, end) && IsKind(s[0]) && s[1..end] == field && s[0] == kind
            && ReadElement(rules, depth, inMemory, s) == ReadLine(rules, depth, inMemory, s, end)
  {
    hide ReadLine, FirstCrlf;
    LineEnds(kind, field, x);
  }

  lemma PairFreeIs(text: seq<byte>)
    ensures PairFree(text) <==> NoLineEnd(text)
  {
    if PairFree(text) {
      forall i | 0 <= i < |text| - 1 ensures !(text[i] == 13 && text[i + 1] == 10) {
        assert !CrlfAt(text, i);
      }
    }
  }

  /** A marked line with no line end in its field, read. */
  lemma MarkedReads(rules: Rules, depth: nat, inMemory: nat, line: seq<byte>, kind: byte, x: seq<byte>)
    requires IsKind(kind) && Marked(line, kind) && NoLineEnd(Field(line))
    ensures var s, end := line + x, |line| - 2;
            && CrlfAt(s, end) && IsKind(s[0]) && s[1..end] == Field(line) && s[0] == kind
            && ReadElement(rules, depth, inMemory, s) == ReadLine(rules, depth, inMemory, s, end)
  {
    hide ReadElement, ReadLine, PairFree, NoLineEnd;
    MarkedIsLine(line, kind);
    PairFreeIs(Field(line));
    LineReads(rules, depth, inMemory, kind, Field(line), x);
  }

  lemma LeafReads(rules: Rules, depth: nat, inMemory: nat, t: seq<byte>, f: Frame, x: seq<byte>, levels: nat)
    requires !f.Array? && Spells(t, f) && Allowed(rules, f, levels) && Affords(rules, inMemory, NodeCost(rules, f))
    ensures ReadElement(rules, depth, inMemory, t + x) == Got(Value(f), |t|)
  {
    hide FirstCrlf, Decimals.ParseI64, ReadElement, ArrayCount, Writes, NoLineEnd, BulkBody, SpellsBulk;
    match f {
      case Simple(text) => MarkedReads(rules, depth, inMemory, t, PLUS, x);
      case Error(text) => MarkedReads(rules, depth, inMemory, t, DASH, x);
      case Integer(value) =>
        ParsesWhatIsWritten(Field(t), value);
        WrittenHasNoLineEnd(Field(t), value);
        MarkedReads(rules, depth, inMemory, t, COLON, x);
      case Bulk(payload) => BulkReads(rules, depth, inMemory, t, payload, x);
      case Null =>
        ParsesWhatIsWritten(Field(t), -1);
        WrittenHasNoLineEnd(Field(t), -1);
        MarkedReads(rules, depth, inMemory, t, DOLLAR, x);
    }
  }

  lemma BulkReads(rules: Rules, depth: nat, inMemory: nat, t: seq<byte>, payload: seq<byte>, x: seq<byte>)
    requires SpellsBulk(t, payload)
    requires |payload| <= MAX_BULK_LEN && Affords(rules, inMemory, rules.frameSize + |payload|)
    ensures ReadElement(rules, depth, inMemory, t + x) == Got(Value(Bulk(payload)), |t|)
  {
    hide FirstCrlf, Decimals.ParseI64, ReadElement, ArrayCount, BulkBody, Writes, NoLineEnd;
    var head := t[..|t| - |payload| - 2];
    ParsesWhatIsWritten(Field(head), |payload|);
    WrittenHasNoLineEnd(Field(head), |payload|);
    MarkedReads(rules, depth, inMemory, head, DOLLAR, payload + CRLF + x);
    assert t + x == head + (payload + CRLF + x);
    BodyReads(head, payload, x);
  }

  lemma BodyReads(head: seq<byte>, payload: seq<byte>, x: seq<byte>)
    ensures BulkBody(head + (payload + CRLF + x), |head|, |payload|)
         == Got(Value(Bulk(payload)), |head| + |payload| + 2)
  {
    var s := head + (payload + CRLF + x);
    assert s[|head|..|head| + |payload|] == payload;
    assert s[|head| + |payload|..|head| + |payload| + 2] == CRLF;
  }

  /** Memory enough for as many frames as an array declares. */
  predicate CountAfforded(rules: Rules, inMemory: nat, count: nat)
  {
    count * rules.frameSize <= Headroom(rules, inMemory)
  }

  lemma HeaderReads(rules: Rules, depth: nat, inMemory: nat, line: seq<byte>, count: nat, x: seq<byte>)
    requires CountLine(line, count) && count <= MAX_ARRAY_LEN && depth + 1 <= MAX_ARRAY_DEPTH
    requires CountAfforded(rules, inMemory, count)
    ensures ReadElement(rules, depth, inMemory, line + x) == Got(ArrayHeader(count), |line|)
  {
    hide FirstCrlf, Decimals.ParseI64, ReadElement, BulkHeader, Writes, NoLineEnd;
    ParsesWhatIsWritten(Field(line), count);
    WrittenHasNoLineEnd(Field(line), count);
    MarkedReads(rules, depth, inMemory, line, ASTERISK, x);
  }

  // ---------- Frames ----------

  /** A whole frame read and placed: its elements' charge and its bytes counted. */
  function PutWhole(rules: Rules, m: Machine, f: Frame, size: nat): Placing
  {
    Put(rules, Machine(m.stack, m.inMemory + Cost(rules, f) - NodeCost(rules, f), m.used + size), f)
  }

  /** One element read is one move of the frame. */
  lemma ReadsOn(rules: Rules, m: Machine, s: seq<byte>, size: nat, e: Element)
    requires ReadElement(rules, |m.stack|, m.inMemory, s) == Got(e, size) && s[0] != CR
    ensures NextFrame(rules, m, s) == Continue(rules, Place(rules, m.(used := m.used + size), e), s[size..])
  {
    hide NextFrame, Place, ReadElement, Continue;
    NextReads(rules, m, s);
  }

  /** So a whole element in front of some bytes leaves just those. */
  lemma ReadsOnto(rules: Rules, m: Machine, s: seq<byte>, t: seq<byte>, x: seq<byte>, e: Element)
    requires s == t + x && |t| > 0 && t[0] != CR && ReadElement(rules, |m.stack|, m.inMemory, s) == Got(e, |t|)
    ensures NextFrame(rules, m, s) == Continue(rules, Place(rules, m.(used := m.used + |t|), e), x)
  {
    hide NextFrame, Place, ReadElement, Continue;
    assert s[|t|..] == x;
    ReadsOn(rules, m, s, |t|, e);
  }

  /** A spelling is read as its frame and nothing after it is touched. */
  lemma {:induction false} SpelledReads(rules: Rules, m: Machine, t: seq<byte>, f: Frame, x: seq<byte>)
    requires Spells(t, f)
    requires |m.stack| <= MAX_ARRAY_DEPTH && Allowed(rules, f, MAX_ARRAY_DEPTH - |m.stack|)
    requires m.inMemory + Cost(rules, f) <= rules.maxInMemory
    ensures NextFrame(rules, m, t + x) == Continue(rules, PutWhole(rules, m, f, |t|), x)
    decreases f, 2
  {
    hide Allowed, Cost, NextFrame, Continue, PutWhole, Spells;
    if f.Array? {
      ArrayReads(rules, m, t, f, x);
    } else {
      LeafSpelledReads(rules, m, t, f, x);
    }
  }

  lemma LeafSpelledReads(rules: Rules, m: Machine, t: seq<byte>, f: Frame, x: seq<byte>)
    requires !f.Array? && Spells(t, f)
    requires |m.stack| <= MAX_ARRAY_DEPTH && Allowed(rules, f, MAX_ARRAY_DEPTH - |m.stack|)
    requires m.inMemory + Cost(rules, f) <= rules.maxInMemory
    ensures NextFrame(rules, m, t + x) == Continue(rules, PutWhole(rules, m, f, |t|), x)
  {
    hide Allowed, Cost, NextFrame, Continue, ReadElement, Put, NodeCost, Spells;
    LeafCost(rules, f);
    LeafReads(rules, |m.stack|, m.inMemory, t, f, x, MAX_ARRAY_DEPTH - |m.stack|);
    SpellingStarts(t, f);
    ReadsOnto(rules, m, t + x, t, x, Value(f));
  }

  lemma {:induction false} ArrayReads(rules: Rules, m: Machine, t: seq<byte>, f: Frame, x: seq<byte>)
    requires f.Array? && Spells(t, f)
    requires |m.stack| <= MAX_ARRAY_DEPTH && Allowed(rules, f, MAX_ARRAY_DEPTH - |m.stack|)
    requires m.inMemory + Cost(rules, f) <= rules.maxInMemory
    ensures NextFrame(rules, m, t + x) == Continue(rules, PutWhole(rules, m, f, |t|), x)
    decreases f, 1
  {
    hide NextFrame, Continue, ReadElement, Put, Allowed, CostAll, SpellsAll, CountLine;
    var n := |f.elements|;
    var k :| 3 <= k <= |t| && CountLine(t[..k], n) && SpellsAll(t[k..], f.elements);
    var line, body := t[..k], t[k..];
    var m' := m.(used := m.used + |line|);
    ArrayParts(rules, f, MAX_ARRAY_DEPTH - |m.stack|);
    CountIsAfforded(rules, f.elements);
    assert t + x == line + (body + x);
    HeaderMoves(rules, m, line, n, body + x);
    NothingCosts(rules);
    if n == 0 {
      NothingSpelled(body);
      assert body + x == x;
    } else {
      assert f.elements[0..] == f.elements && f.elements[..0] == [];
      ElementsRead(rules, m', f, 0, body, x);
      ContinueOwing(rules, m'.(stack := m.stack + [Pending(n, [])]), body + x);
    }
  }

  lemma HeaderMoves(rules: Rules, m: Machine, line: seq<byte>, count: nat, x: seq<byte>)
    requires CountLine(line, count) && count <= MAX_ARRAY_LEN && |m.stack| + 1 <= MAX_ARRAY_DEPTH
    requires CountAfforded(rules, m.inMemory, count)
    ensures NextFrame(rules, m, line + x)
         == Continue(rules, Place(rules, m.(used := m.used + |line|), ArrayHeader(count)), x)
  {
    hide NextFrame, Continue, ReadElement, Place, CountLine, CountAfforded;
    CountLineStarts(line, count);
    HeaderReads(rules, |m.stack|, m.inMemory, line, count, x);
    ReadsOnto(rules, m, line + x, line, x, ArrayHeader(count));
  }

  lemma CountLineStarts(line: seq<byte>, count: nat)
    requires CountLine(line, count)
    ensures |line| >= 3 && line[0] == 42
  {
    hide Writes;
  }

  lemma NothingSpelled(t: seq<byte>)
    ensures SpellsAll(t, []) <==> t == []
  {
  }

  lemma ContinueOwing(rules: Rules, m: Machine, rest: seq<byte>)
    ensures Continue(rules, Owing(m), rest) == NextFrame(rules, m, rest)
  {
  }

  lemma ArrayParts(rules: Rules, f: Frame, levels: nat)
    requires f.Array? && Allowed(rules, f, levels)
    ensures levels >= 1 && |f.elements| <= MAX_ARRAY_LEN
    ensures forall i :: 0 <= i < |f.elements| ==> Allowed(rules, f.elements[i], levels - 1)
  {
  }

  lemma {:induction false} CountIsAfforded(rules: Rules, elements: seq<Frame>)
    ensures |elements| * rules.frameSize <= CostAll(rules, elements)
  {
    if elements != [] {
      var n := |elements| - 1;
      CountIsAfforded(rules, elements[..n]);
      assert (n + 1) * rules.frameSize == n * rules.frameSize + rules.frameSize;
    }
  }

  lemma {:induction false} CostGrows(rules: Rules, elements: seq<Frame>, i: nat)
    requires i <= |elements|
    ensures CostAll(rules, elements[..i]) <= CostAll(rules, elements)
    decreases |elements|
  {
    hide Cost;
    if i < |elements| {
      var n := |elements| - 1;
      assert elements[..n][..i] == elements[..i];
      CostGrows(rules, elements[..n], i);
    } else {
      assert elements[..i] == elements;
    }
  }

  /** An array with some elements read, waiting for the rest. */
  function Filling(rules: Rules, m: Machine, elements: seq<Frame>, i: nat): Machine
    requires i < |elements|
  {
    Machine(m.stack + [Pending(|elements| - i, elements[..i])], m.inMemory + CostAll(rules, elements[..i]), m.used)
  }

  /** The elements from the `i`-th on are read in turn, and the last one completes the array. */
  lemma {:induction false} ElementsRead(rules: Rules, m: Machine, f: Frame, i: nat, tail: seq<byte>, x: seq<byte>)
    requires f.Array? && i < |f.elements| && SpellsAll(tail, f.elements[i..])
    requires |m.stack| <= MAX_ARRAY_DEPTH && Allowed(rules, f, MAX_ARRAY_DEPTH - |m.stack|)
    requires m.inMemory + Cost(rules, f) <= rules.maxInMemory
    ensures var m' := Machine(m.stack, m.inMemory + CostAll(rules, f.elements), m.used + |tail|);
            NextFrame(rules, Filling(rules, m, f.elements, i), tail + x) == Continue(rules, Put(rules, m', f), x)
    decreases f, 0, |f.elements| - i
  {
    hide NextFrame, Continue, ReadElement, Put, Allowed, CostAll, Spells, SpellsAll, PutWhole, Filling;
    var elements, child := f.elements, f.elements[i];
    var k := TailSplits(tail, elements, i);
    var filling, after := Filling(rules, m, elements, i), tail[k..] + x;
    assert tail + x == tail[..k] + after;
    ArrayParts(rules, f, MAX_ARRAY_DEPTH - |m.stack|);
    FillingIs(rules, m, elements, i);
    CostGrows(rules, elements, i + 1);
    ArrayCost(rules, elements);
    SpelledReads(rules, filling, tail[..k], child, after);
    ChildPlaced(rules, m, elements, i, k);
    if i + 1 == |elements| {
      assert elements[..i + 1] == elements && elements[i + 1..] == [];
      NothingSpelled(tail[k..]);
      assert after == x;
    } else {
      var m'' := m.(used := m.used + k);
      ContinueOwing(rules, Filling(rules, m'', elements, i + 1), after);
      ElementsRead(rules, m'', f, i + 1, tail[k..], x);
    }
  }

  lemma TailSplits(tail: seq<byte>, elements: seq<Frame>, i: nat) returns (k: nat)
    requires i < |elements| && SpellsAll(tail, elements[i..])
    ensures k <= |tail| && Spells(tail[..k], elements[i]) && SpellsAll(tail[k..], elements[i + 1..])
  {
    hide Spells;
    assert elements[i..][1..] == elements[i + 1..];
    k :| 0 <= k <= |tail| && Spells(tail[..k], elements[i..][0]) && SpellsAll(tail[k..], elements[i..][1..]);
  }

  lemma FillingIs(rules: Rules, m: Machine, elements: seq<Frame>, i: nat)
    requires i < |elements|
    ensures var filling := Filling(rules, m, elements, i);
            && |filling.stack| == |m.stack| + 1
            && filling.inMemory + Cost(rules, elements[i]) == m.inMemory + CostAll(rules, elements[..i + 1])
  {
    assert elements[..i + 1] == elements[..i] + [elements[i]];
    CostAppends(rules, elements[..i], elements[i]);
  }

  /** An element placed leaves the array one element fuller, or complete. */
  lemma ChildPlaced(rules: Rules, m: Machine, elements: seq<Frame>, i: nat, size: nat)
    requires i < |elements| && m.inMemory + CostAll(rules, elements[..i + 1]) <= rules.maxInMemory
    ensures var used := m.used + size;
            var placed := PutWhole(rules, Filling(rules, m, elements, i), elements[i], size);
            if i + 1 == |elements|
            then
              var filled := Machine(m.stack, m.inMemory + CostAll(rules, elements[..i + 1]), used);
              placed == Put(rules, filled, Array(elements))
            else placed == Owing(Filling(rules, m.(used := used), elements, i + 1))
  {
    hide Cost, CostAll, NodeCost;
    var child := elements[i];
    var filling := Filling(rules, m, elements, i);
    FillingIs(rules, m, elements, i);
    NodeWithinCost(rules, child);
    assert elements[..i] + [child] == elements[..i + 1];
    assert filling.stack[..|filling.stack| - 1] == m.stack;
    assert i + 1 == |elements| ==> elements[..i + 1] == elements;
  }

  lemma NodeWithinCost(rules: Rules, f: Frame)
    ensures NodeCost(rules, f) <= Cost(rules, f)
  {
  }

  // ---------- The round trip ----------

  /** A frame within the limits on the wire and in memory. */
  predicate Fits(rules: Rules, f: Frame)
  {
    Allowed(rules, f, 64) && Cost(rules, f) <= rules.maxInMemory && |Wire(f)| <= rules.maxFrameBytes
  }

  /** Any spelling of a frame within the limits, whatever follows it, is delivered as that frame and
      takes exactly its own bytes. */
  lemma SpelledIsDelivered(rules: Rules, t: seq<byte>, f: Frame, x: seq<byte>)
    requires Spells(t, f) && Allowed(rules, f, 64)
    requires Cost(rules, f) <= rules.maxInMemory && |t| <= rules.maxFrameBytes
    ensures NextFrame(rules, FRESH, t + x) == Delivered(f, x)
  {
    hide Allowed, Cost, NextFrame, Spells, NodeCost;
    SpelledReads(rules, FRESH, t, f, x);
    NodeWithinCost(rules, f);
  }

  /** Written out and followed by anything, a frame that fits is read back as itself and takes
      exactly its own bytes. */
  lemma RoundTrip(rules: Rules, f: Frame, x: seq<byte>)
    requires Fits(rules, f)
    ensures NextFrame(rules, FRESH, Wire(f) + x) == Delivered(f, x)
  {
    hide Allowed, Cost, NextFrame, Wire, Spells;
    AllowedTexts(rules, f, MAX_ARRAY_DEPTH);
    WireSpells(f);
    SpelledIsDelivered(rules, Wire(f), f, x);
  }

  lemma {:induction false} AllowedTexts(rules: Rules, f: Frame, levels: nat)
    requires Allowed(rules, f, levels)
    ensures TextsOk(f)
    decreases f
  {
    hide PairFree, NoLineEnd;
    match f {
      case Simple(text) => PairFreeIs(text);
      case Error(text) => PairFreeIs(text);
      case Array(elements) =>
        forall i | 0 <= i < |elements| ensures TextsOk(elements[i]) {
          AllowedTexts(rules, elements[i], levels - 1);
        }
      case _ =>
    }
  }

  /** A simple or error text goes round exactly when it holds no line end: one inside it ends the
      frame early. */
  lemma TextGoesRoundIff(rules: Rules, text: seq<byte>, f: Frame, x: seq<byte>)
    requires f == Simple(text) || f == Error(text)
    requires rules.isUtf8(text) && rules.frameSize + |text| <= rules.maxInMemory && |text| + 3 <= rules.maxFrameBytes
    ensures NextFrame(rules, FRESH, Wire(f) + x) == Delivered(f, x) <==> PairFree(text)
  {
    hide PairFree, FirstCrlf;
    var kind := if f.Simple? then PLUS else DASH;
    assert Wire(f) == Own(f);
    LineEnds(kind, text, x);
    if PairFree(text) {
      RoundTrip(rules, f, x);
    }
    var s := Wire(f) + x;
    assert s[0] == kind;
    var end := FirstCrlf(s, 1);
    if end.Some? && NextFrame(rules, FRESH, s) == Delivered(f, x) {
      assert |s[end.value + 2..]| == |x|;
    }
  }

  /** Every proper prefix of a frame that fits asks for more. */
  lemma ProperPrefixWaits(rules: Rules, f: Frame, n: nat)
    requires Fits(rules, f) && n < |Wire(f)|
    ensures NextFrame(rules, FRESH, Wire(f)[..n]).Waiting?
  {
    hide Allowed, Cost, NextFrame, Wire;
    var p, q := Wire(f)[..n], Wire(f)[n..];
    assert p + q == Wire(f) + [];
    RoundTrip(rules, f, []);
    NextExtends(rules, FRESH, p, q);
  }

  /** Frames that fit, written one after another, are read back as those frames and no more. */
  lemma {:induction false} ConversationRoundTrip(rules: Rules, frames: seq<Frame>)
    requires forall i :: 0 <= i < |frames| ==> Fits(rules, frames[i])
    ensures Drain(rules, FRESH, WireAll(frames)) == (frames, Open(FRESH, []))
    decreases |frames|
  {
    hide Fits, NextFrame, Wire;
    if frames == [] {
      NothingWaits(rules);
    } else {
      RoundTrip(rules, frames[0], WireAll(frames[1..]));
      ConversationRoundTrip(rules, frames[1..]);
      assert [frames[0]] + frames[1..] == frames;
    }
  }

  /** And so they are in whatever chunks they arrive. */
  lemma ConversationInChunks(rules: Rules, frames: seq<Frame>, chunks: seq<seq<byte>>)
    requires rules.maxFrameBytes >= 1 && Concat(chunks) == WireAll(frames)
    requires forall i :: 0 <= i < |frames| ==> Fits(rules, frames[i])
    ensures FeedAll(rules, Open(FRESH, []), chunks) == (frames, Open(FRESH, []))
  {
    hide Fits, FeedAll, Drain, Concat, WireAll;
    FreshRests(rules);
    ChunksAreWhole(rules, Open(FRESH, []), chunks);
    ConversationRoundTrip(rules, frames);
    assert [] + WireAll(frames) == WireAll(frames);
  }

  lemma NothingWaits(rules: Rules)
    ensures NextFrame(rules, FRESH, []) == Waiting(FRESH, [])
  {
    NothingRead(rules, 0, 0);
  }

  // ---------- Memory and wire ----------

  /** The longest line a frame without payload puts on the wire. */
  const LONGEST_LINE: nat := 23

  lemma FewDigits(n: int)
    ensures I64_MIN <= n <= I64_MAX ==> |Decimal(n)| <= 20
    ensures 0 <= n <= MAX_BULK_LEN ==> |Decimal(n)| <= 8
  {
    assert Pow10(8) == 100_000_000;
    assert Pow10(19) == 10_000_000_000_000_000_000;
    if I64_MIN <= n <= I64_MAX {
      DigitsAreFew(if n < 0 then -n else n, 19);
    }
    if 0 <= n <= MAX_BULK_LEN {
      DigitsAreFew(n, 8);
    }
  }

  lemma OwnWithinCost(rules: Rules, f: Frame, levels: nat)
    requires Allowed(rules, f, levels) && rules.frameSize >= LONGEST_LINE
    ensures |Own(f)| <= NodeCost(rules, f)
  {
    hide Decimal;
    match f {
      case Integer(value) => FewDigits(value);
      case Bulk(payload) => FewDigits(|payload|);
      case Null => FewDigits(-1);
      case Array(elements) => FewDigits(|elements|);
      case _ =>
    }
  }

  /** A frame is never smaller in memory than on the wire, so where the memory limit is the
      smaller one it is the one that binds. */
  lemma {:induction false} WireWithinCost(rules: Rules, f: Frame, levels: nat)
    requires Allowed(rules, f, levels) && rules.frameSize >= LONGEST_LINE
    ensures |Wire(f)| <= Cost(rules, f)
    decreases f, 1
  {
    hide Own, NodeCost;
    OwnWithinCost(rules, f, levels);
    if f.Array? {
      WireAllWithinCost(rules, f, levels, |f.elements|);
      assert f.elements[..|f.elements|] == f.elements;
    }
  }

  lemma {:induction false} WireAllWithinCost(rules: Rules, f: Frame, levels: nat, n: nat)
    requires f.Array? && Allowed(rules, f, levels) && rules.frameSize >= LONGEST_LINE && n <= |f.elements|
    ensures |WireAll(f.elements[..n])| <= CostAll(rules, f.elements[..n])
    decreases f, 0, n
  {
    hide Wire, Cost;
    var elements := f.elements;
    if n > 0 {
      WireWithinCost(rules, elements[n - 1], levels - 1);
      WireAllWithinCost(rules, f, levels, n - 1);
      assert elements[..n] == elements[..n - 1] + [elements[n - 1]];
      CostAppends(rules, elements[..n - 1], elements[n - 1]);
      WireAppends(elements[..n - 1], elements[n - 1]);
    }
  }
}
