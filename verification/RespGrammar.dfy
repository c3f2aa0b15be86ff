/**
 The decoder accepts the grammar and nothing else: a frame is delivered exactly when the bytes,
 after empty lines, spell it within the limits. What spells no frame is refused whatever follows.
 */
module RespGrammar {
  import opened Basics
  import opened Decimals
  import opened Resp
  import opened RespMachine
  import opened RespChunks
  import opened RespLimits
  import opened RespRoundTrip
  import opened Spellings

  // ---------- One element ----------

  /** The line at the front, up to its first line end, as a marked line. */
  lemma LineAtFront(s: seq<byte>, end: nat)
    requires s != [] && FirstCrlf(s, 1) == Some(end)
    ensures 1 <= end && end + 2 <= |s|
    ensures Marked(s[..end + 2], s[0]) && Field(s[..end + 2]) == s[1..end] && NoLineEnd(s[1..end])
  {
    hide FirstCrlf, PairFree, NoLineEnd;
    FieldIsPairFree(s, end);
    PairFreeIs(s[1..end]);
    var line := s[..end + 2];
    assert line[end] == 13 && line[end + 1] == 10;
    assert line[end..] == [13, 10];
  }

  /** An element read is spelled by the bytes it took: a whole value, or the line that opens an
      array. */
  lemma ReadIsSpelled(rules: Rules, depth: nat, inMemory: nat, s: seq<byte>)
    ensures var r := ReadElement(rules, depth, inMemory, s);
            && (r.Got? && r.element.Value? ==> !r.element.frame.Array? && Spells(s[..r.size], r.element.frame))
            && (r.Got? && r.element.ArrayHeader? ==> CountLine(s[..r.size], r.element.count))
  {
    hide FirstCrlf, Decimals.ParseI64, Writes, NoLineEnd, SpellsBulk, BulkBody;
    var r := ReadElement(rules, depth, inMemory, s);
    if r.Got? {
      var end := FirstCrlf(s, 1).value;
      var field, line := s[1..end], s[..end + 2];
      LineAtFront(s, end);
      if ParseI64(field).Some? {
        ParsesWhatIsWritten(field, ParseI64(field).value);
      }
      if s[0] == DOLLAR && BulkHeader(rules, inMemory, field).Length? {
        BodyIsSpelled(s, end + 2, ParseI64(field).value);
      }
    }
  }

  lemma BodyIsSpelled(s: seq<byte>, header: nat, len: nat)
    requires 3 <= header <= |s| && Marked(s[..header], 36) && Writes(Field(s[..header]), len)
    ensures var r := BulkBody(s, header, len);
            r.Got? ==> r.element.Value? && r.element.frame.Bulk? && r.size <= |s|
                       && SpellsBulk(s[..r.size], r.element.frame.payload)
  {
    hide Writes;
    var r := BulkBody(s, header, len);
    if r.Got? {
      var payload, t := s[header..header + len], s[..r.size];
      assert t[..|t| - len - 2] == s[..header];
      assert t == s[..header] + payload + s[header + len..header + len + 2];
    }
  }

  // ---------- A frame under way ----------

  /** The bytes consumed so far spell the arrays still being filled: each its count line and the
      elements it has, the next one inside it. */
  ghost predicate SpelledSoFar(c: seq<byte>, stack: seq<Pending>)
    decreases |stack|
  {
    if stack == [] then c == []
    else
      var n := |stack| - 1;
      exists i, j :: 0 <= i <= j <= |c| && SpelledSoFar(c[..i], stack[..n]) && OpenArray(c[i..j], c[j..], stack[n])
  }

  /** An array under way: a line that counts all its elements, and those it has. */
  ghost predicate OpenArray(line: seq<byte>, body: seq<byte>, p: Pending)
  {
    p.remaining >= 1 && CountLine(line, |p.elements| + p.remaining) && SpellsAll(body, p.elements)
  }

  lemma OpensArray(c: seq<byte>, stack: seq<Pending>, line: seq<byte>, body: seq<byte>, p: Pending)
    requires SpelledSoFar(c, stack) && OpenArray(line, body, p)
    ensures SpelledSoFar(c + line + body, stack + [p])
  {
    hide OpenArray;
    var all, pushed, i, j := c + line + body, stack + [p], |c|, |c| + |line|;
    assert pushed[..|stack|] == stack && pushed[|stack|] == p;
    assert all[..i] == c && all[i..j] == line && all[j..] == body;
  }

  lemma TakeTop(c: seq<byte>, stack: seq<Pending>) returns (below: seq<byte>, line: seq<byte>, body: seq<byte>)
    requires stack != [] && SpelledSoFar(c, stack)
    ensures c == below + line + body
    ensures SpelledSoFar(below, stack[..|stack| - 1]) && OpenArray(line, body, stack[|stack| - 1])
  {
    hide OpenArray;
    var n := |stack| - 1;
    var i, j :| 0 <= i <= j <= |c| && SpelledSoFar(c[..i], stack[..n]) && OpenArray(c[i..j], c[j..], stack[n]);
    below, line, body := c[..i], c[i..j], c[j..];
  }

  /** A value put where it belongs is spelled where it belongs, through every array it fills. */
  lemma {:induction false} PutIsSpelled(rules: Rules, m: Machine, f: Frame, c: seq<byte>, t: seq<byte>)
    requires SpelledSoFar(c, m.stack) && Spells(t, f)
    ensures var p := Put(rules, m, f);
            && (p.Owing? ==> SpelledSoFar(c + t, p.machine.stack))
            && (p.Complete? ==> Spells(c + t, p.frame))
    decreases |m.stack|
  {
    hide Spells, SpellsAll, CountLine, NodeCost, SpelledSoFar, OpenArray;
    var cost := NodeCost(rules, f);
    if Affords(rules, m.inMemory, cost) {
      if m.stack == [] {
        NothingSoFar(c);
        assert c + t == t;
      } else {
        var n := |m.stack| - 1;
        var below, line, body := TakeTop(c, m.stack);
        var elements := m.stack[n].elements + [f];
        TopGrows(line, body, m.stack[n], t, f);
        assert below + (line + (body + t)) == c + t;
        if m.stack[n].remaining <= 1 {
          SpellsArray(line, body + t, elements);
          PutIsSpelled(rules, Machine(m.stack[..n], m.inMemory + cost, m.used), Array(elements), below,
                       line + (body + t));
        } else {
          OpensArray(below, m.stack[..n], line, body + t, Pending(m.stack[n].remaining - 1, elements));
          assert below + line + (body + t) == c + t;
        }
      }
    }
  }

  lemma NothingSoFar(c: seq<byte>)
    ensures SpelledSoFar(c, []) <==> c == []
  {
  }

  lemma TopGrows(line: seq<byte>, body: seq<byte>, p: Pending, t: seq<byte>, f: Frame)
    requires OpenArray(line, body, p) && Spells(t, f)
    ensures SpellsAll(body + t, p.elements + [f])
    ensures p.remaining <= 1 ==> CountLine(line, |p.elements + [f]|)
    ensures p.remaining > 1 ==> OpenArray(line, body + t, Pending(p.remaining - 1, p.elements + [f]))
  {
    hide Spells, SpellsAll, CountLine;
    SpellsAllAppends(body, p.elements, t, f);
  }

  lemma PlaceIsSpelled(rules: Rules, m: Machine, e: Element, c: seq<byte>, t: seq<byte>)
    requires SpelledSoFar(c, m.stack)
    requires e.Value? ==> Spells(t, e.frame)
    requires e.ArrayHeader? ==> CountLine(t, e.count)
    ensures var p := Place(rules, m, e);
            && (p.Owing? ==> SpelledSoFar(c + t, p.machine.stack) && p.machine.stack != [])
            && (p.Complete? ==> Spells(c + t, p.frame))
  {
    hide Spells, SpelledSoFar, Put, CountLine, OpenArray;
    match e {
      case Value(f) =>
        PutIsSpelled(rules, m, f, c, t);
        PutKeepsUsed(rules, m, f);
      case ArrayHeader(count) =>
        NothingSpelled([]);
        if count == 0 {
          SpellsArray(t, [], []);
          assert t + [] == t;
          PutIsSpelled(rules, m, Array([]), c, t);
          PutKeepsUsed(rules, m, Array([]));
        } else {
          JustOpened(t, count);
          OpensArray(c, m.stack, t, [], Pending(count, []));
          assert c + t + [] == c + t;
        }
    }
  }

  lemma JustOpened(line: seq<byte>, count: nat)
    requires CountLine(line, count) && count > 0
    ensures OpenArray(line, [], Pending(count, []))
  {
    hide CountLine;
  }

  /** From inside a frame, or at its first byte: what is delivered is spelled by what was consumed
      before and the bytes now taken. */
  lemma {:induction false} NextIsSpelled(rules: Rules, m: Machine, rest: seq<byte>, c: seq<byte>)
    requires SpelledSoFar(c, m.stack) && (m.stack != [] || (rest != [] && rest[0] != CR))
    ensures var r := NextFrame(rules, m, rest);
            r.Delivered? ==>
              && |r.rest| <= |rest| && rest[|rest| - |r.rest|..] == r.rest
              && Spells(c + rest[..|rest| - |r.rest|], r.frame)
    decreases |rest|
  {
    hide NextFrame, ReadElement, Place, Spells, SpelledSoFar, CountLine;
    NextReads(rules, m, rest);
    var r := ReadElement(rules, |m.stack|, m.inMemory, rest);
    if r.Got? {
      var m', t, later := m.(used := m.used + r.size), rest[..r.size], rest[r.size..];
      ReadIsSpelled(rules, |m.stack|, m.inMemory, rest);
      PlaceIsSpelled(rules, m', r.element, c, t);
      var p := Place(rules, m', r.element);
      if p.Owing? {
        NextIsSpelled(rules, p.machine, later, c + t);
        var next := NextFrame(rules, p.machine, later);
        if next.Delivered? {
          var k := |later| - |next.rest|;
          assert rest[..r.size + k] == t + later[..k];
          assert c + (t + later[..k]) == c + t + later[..k];
          assert rest[r.size + k..] == later[k..];
        }
      }
    }
  }

  // ---------- Empty lines ----------

  function Blank(lines: nat): (r: seq<byte>)
    ensures |r| == 2 * lines
  {
    if lines == 0 then [] else [13, 10] + Blank(lines - 1)
  }

  lemma BlankSkips(rules: Rules, x: seq<byte>)
    ensures NextFrame(rules, FRESH, [13, 10] + x) == NextFrame(rules, FRESH, x)
  {
    assert CrlfAt([13, 10] + x, 0);
    assert ([13, 10] + x)[2..] == x;
  }

  lemma {:induction false} BlanksSkip(rules: Rules, lines: nat, x: seq<byte>)
    ensures NextFrame(rules, FRESH, Blank(lines) + x) == NextFrame(rules, FRESH, x)
  {
    hide NextFrame;
    if lines == 0 {
      assert [] + x == x;
    } else {
      assert Blank(lines) + x == [13, 10] + (Blank(lines - 1) + x);
      BlankSkips(rules, Blank(lines - 1) + x);
      BlanksSkip(rules, lines - 1, x);
    }
  }

  // ---------- The decoder and the grammar ----------

  /** What is delivered was spelled: empty lines, a spelling of the frame within its bytes, and the
      bytes left. */
  lemma {:induction false} DeliveredIsSpelled(rules: Rules, s: seq<byte>) returns (lines: nat, t: seq<byte>)
    requires NextFrame(rules, FRESH, s).Delivered?
    ensures s == Blank(lines) + t + NextFrame(rules, FRESH, s).rest
    ensures Spells(t, NextFrame(rules, FRESH, s).frame) && |t| <= rules.maxFrameBytes
    decreases |s|
  {
    hide NextFrame, Spells;
    StartsWell(rules, s);
    var r := NextFrame(rules, FRESH, s);
    if s[0] == CR {
      BlankSkips(rules, s[2..]);
      assert s == [13, 10] + s[2..];
      lines, t := DeliveredIsSpelled(rules, s[2..]);
      lines := lines + 1;
      assert [13, 10] + (Blank(lines - 1) + t + r.rest) == Blank(lines) + t + r.rest;
    } else {
      NothingSoFar([]);
      NextIsSpelled(rules, FRESH, s, []);
      DeliveredWithinBytes(rules, FRESH, s);
      lines, t := 0, s[..|s| - |r.rest|];
      assert [] + t == t;
    }
  }

  lemma StartsWell(rules: Rules, s: seq<byte>)
    requires NextFrame(rules, FRESH, s).Delivered?
    ensures s != [] && (s[0] == CR ==> |s| >= 2 && s[1] == LF)
  {
    hide NextFrame, ReadLine, FirstCrlf;
    NothingWaits(rules);
    if s != [] && s[0] == CR && s != [CR] && !CrlfAt(s, 0) {
      NextReads(rules, FRESH, s);
    }
    if s == [CR] {
      LoneReturnWaits(rules);
    }
  }

  lemma LoneReturnWaits(rules: Rules)
    ensures !NextFrame(rules, FRESH, [CR]).Delivered?
  {
  }

  lemma DeliveredIsAllowed(rules: Rules, s: seq<byte>)
    requires NextFrame(rules, FRESH, s).Delivered?
    ensures var f := NextFrame(rules, FRESH, s).frame;
            Allowed(rules, f, 64) && Cost(rules, f) <= rules.maxInMemory
  {
    hide NextFrame, Allowed, Cost;
    NothingHeld(rules);
    NextKeepsOk(rules, FRESH, s);
  }

  /** The bytes are empty lines, a spelling of `f` no longer than a frame may be, and `rest`. */
  ghost predicate HeldAt(rules: Rules, s: seq<byte>, lines: nat, t: seq<byte>, f: Frame, rest: seq<byte>)
  {
    s == Blank(lines) + t + rest && Spells(t, f) && |t| <= rules.maxFrameBytes
  }

  ghost predicate Holds(rules: Rules, s: seq<byte>, f: Frame, rest: seq<byte>)
  {
    exists lines: nat, t :: HeldAt(rules, s, lines, t, f, rest)
  }

  lemma HeldIsDelivered(rules: Rules, s: seq<byte>, lines: nat, t: seq<byte>, f: Frame, rest: seq<byte>)
    requires HeldAt(rules, s, lines, t, f, rest)
    requires Allowed(rules, f, 64) && Cost(rules, f) <= rules.maxInMemory
    ensures NextFrame(rules, FRESH, s) == Delivered(f, rest)
  {
    hide NextFrame, Allowed, Cost, Spells;
    assert Blank(lines) + t + rest == Blank(lines) + (t + rest);
    BlanksSkip(rules, lines, t + rest);
    SpelledIsDelivered(rules, t, f, rest);
  }

  /** A frame is delivered exactly when the bytes hold it within the limits. */
  lemma DeliveredIff(rules: Rules, s: seq<byte>, f: Frame, rest: seq<byte>)
    ensures NextFrame(rules, FRESH, s) == Delivered(f, rest)
            <==> && Holds(rules, s, f, rest)
                 && Allowed(rules, f, 64) && Cost(rules, f) <= rules.maxInMemory
  {
    hide NextFrame, Allowed, Cost, Spells, Blank;
    if NextFrame(rules, FRESH, s) == Delivered(f, rest) {
      var lines, t := DeliveredIsSpelled(rules, s);
      DeliveredIsAllowed(rules, s);
      assert HeldAt(rules, s, lines, t, f, rest);
    } else if Holds(rules, s, f, rest) && Allowed(rules, f, 64) && Cost(rules, f) <= rules.maxInMemory {
      var lines: nat, t :| HeldAt(rules, s, lines, t, f, rest);
      HeldIsDelivered(rules, s, lines, t, f, rest);
    }
  }

  /** So no bytes hold two different frames that are within the limits. */
  lemma HeldOnce(rules: Rules, s: seq<byte>, f: Frame, x: seq<byte>, g: Frame, y: seq<byte>)
    requires Holds(rules, s, f, x) && Allowed(rules, f, 64) && Cost(rules, f) <= rules.maxInMemory
    requires Holds(rules, s, g, y) && Allowed(rules, g, 64) && Cost(rules, g) <= rules.maxInMemory
    ensures f == g && x == y
  {
    hide NextFrame, Allowed, Cost, Holds;
    DeliveredIff(rules, s, f, x);
    DeliveredIff(rules, s, g, y);
  }

  // ---------- What is refused, whatever follows ----------

  /** A byte no frame begins with: between frames a carriage return begins an empty line, and inside
      an array not even that. */
  lemma UnknownTypeIsRefused(rules: Rules, m: Machine, s: seq<byte>)
    requires s != [] && s[0] !in {43, 45, 58, 36, 42}
    requires s[0] == 13 ==> m.stack != [] || (|s| >= 2 && s[1] != 10)
    ensures NextFrame(rules, m, s) == Refused
  {
    hide NextFrame, FirstCrlf, ReadLine;
    NextReads(rules, m, s);
  }

  /** A text that is not UTF-8. */
  lemma BadTextIsRefused(rules: Rules, m: Machine, line: seq<byte>, x: seq<byte>)
    requires (Marked(line, 43) || Marked(line, 45)) && NoLineEnd(Field(line)) && !rules.isUtf8(Field(line))
    ensures NextFrame(rules, m, line + x) == Refused
  {
    hide NextFrame, ReadElement, NoLineEnd;
    MarkedReads(rules, |m.stack|, m.inMemory, line, line[0], x);
    NextReads(rules, m, line + x);
  }

  /** An integer that is none, or none of 64 bits. */
  lemma BadIntegerIsRefused(rules: Rules, m: Machine, line: seq<byte>, x: seq<byte>)
    requires Marked(line, 58) && NoLineEnd(Field(line))
    requires forall n :: Writes(Field(line), n) ==> n < -0x8000_0000_0000_0000 || n > 0x7FFF_FFFF_FFFF_FFFF
    ensures NextFrame(rules, m, line + x) == Refused
  {
    hide NextFrame, ReadElement, NoLineEnd, Decimals.ParseI64, Writes;
    MarkedReads(rules, |m.stack|, m.inMemory, line, COLON, x);
    NextReads(rules, m, line + x);
    NotParsed(Field(line));
  }

  lemma NotParsed(field: seq<byte>)
    ensures ParseI64(field).Some? ==>
              var n := ParseI64(field).value;
              Writes(field, n) && -0x8000_0000_0000_0000 <= n <= 0x7FFF_FFFF_FFFF_FFFF
  {
    hide Decimals.ParseI64, Writes;
    if ParseI64(field).Some? {
      ParsesWhatIsWritten(field, ParseI64(field).value);
    }
  }

  /** A length that is none, is below minus one, is over 16 MiB, or is more than there is memory for:
      refused on its own line, before any of the payload. */
  lemma BadLengthIsRefused(rules: Rules, m: Machine, line: seq<byte>, x: seq<byte>)
    requires Marked(line, 36) && NoLineEnd(Field(line)) && m.inMemory <= rules.maxInMemory
    requires forall n :: Writes(Field(line), n) ==>
               n < -1 || n > 16_777_216 || (n >= 0 && m.inMemory + rules.frameSize + n > rules.maxInMemory)
    ensures NextFrame(rules, m, line + x) == Refused
  {
    hide NextFrame, ReadElement, NoLineEnd, Decimals.ParseI64, Writes, BulkBody;
    MarkedReads(rules, |m.stack|, m.inMemory, line, DOLLAR, x);
    NextReads(rules, m, line + x);
    NotParsed(Field(line));
  }

  /** A count that is none, is negative, is over a mebi, is for a level past the 64th, or is more than
      there is memory for. */
  lemma BadCountIsRefused(rules: Rules, m: Machine, line: seq<byte>, x: seq<byte>)
    requires Marked(line, 42) && NoLineEnd(Field(line)) && m.inMemory <= rules.maxInMemory
    requires forall n :: Writes(Field(line), n) ==>
               n < 0 || n > 1_048_576 || |m.stack| >= 64 || m.inMemory + n * rules.frameSize > rules.maxInMemory
    ensures NextFrame(rules, m, line + x) == Refused
  {
    hide NextFrame, ReadElement, NoLineEnd, Decimals.ParseI64, Writes;
    MarkedReads(rules, |m.stack|, m.inMemory, line, ASTERISK, x);
    NextReads(rules, m, line + x);
    NotParsed(Field(line));
  }

  /** A payload with anything but a line end behind it. */
  lemma BadPayloadEndIsRefused(rules: Rules, m: Machine, line: seq<byte>, payload: seq<byte>, end: seq<byte>,
                               x: seq<byte>)
    requires Marked(line, 36) && Writes(Field(line), |payload|) && |end| == 2 && end != [13, 10]
    ensures NextFrame(rules, m, line + (payload + end + x)) == Refused
  {
    hide NextFrame, ReadElement, NoLineEnd, Decimals.ParseI64, Writes;
    var later, len := payload + end + x, |payload|;
    var s := line + later;
    WrittenHasNoLineEnd(Field(line), len);
    MarkedReads(rules, |m.stack|, m.inMemory, line, DOLLAR, later);
    NextReads(rules, m, s);
    NotParsed(Field(line));
    WrittenOnce(Field(line));
    assert s[|line| + len..|line| + len + 2] == end;
  }

  lemma WrittenOnce(field: seq<byte>)
    ensures forall a, b :: Writes(field, a) && Writes(field, b) ==> a == b
  {
  }
}
