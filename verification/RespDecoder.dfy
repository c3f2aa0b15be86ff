/**
 The resumable decoder: offsets into a buffer, a position inside the element being read, a stack
 of arrays, and running figures, all updated in place. It is the machine of `RespMachine` over
 the undelivered bytes, and it looks at each byte once.
 */
module RespDecoder {
  import opened Basics
  import opened Decimals
  import opened Resp
  import opened RespMachine
  import opened RespChunks
  import opened RespLimits

  /** What a reader need not look at again of the element it is in. */
  datatype Partial = Start | InLine(scanned: nat) | BulkAwaited(header: nat, len: nat)

  /** No line end starts before `end`. */
  ghost predicate Searched(s: seq<byte>, end: int)
  {
    forall j: nat :: 1 <= j < end ==> !CrlfAt(s, j)
  }

  /** What is already understood of the element at the front of `rest`: a line searched up to a
      point without an end in it, or a bulk header read and priced. */
  ghost predicate Understood(rules: Rules, inMemory: nat, rest: seq<byte>, scan: nat, partial: Partial)
  {
    match partial
    case Start => true
    case InLine(scanned) =>
      && rest != [] && IsKind(rest[0])
      && (scanned == scan + 1 || scan + 1 < scanned < scan + |rest|)
      && Searched(rest, scanned - scan)
    case BulkAwaited(header, len) =>
      && rest != [] && rest[0] == DOLLAR && 3 <= header <= |rest|
      && FirstCrlf(rest, 1) == Some(header - 2)
      && BulkHeader(rules, inMemory, rest[1..header - 2]) == Length(len)
  }

  /** How much of the element at `scan` has been looked at already. */
  function LookedAt(scan: nat, partial: Partial): int
  {
    match partial
    case Start => 0
    case InLine(scanned) => scanned - scan - 1
    case BulkAwaited(header, _) => header
  }

  /** More bytes leave what is understood understood. */
  lemma UnderstoodExtends(rules: Rules, inMemory: nat, rest: seq<byte>, scan: nat, partial: Partial, x: seq<byte>)
    requires Understood(rules, inMemory, rest, scan, partial)
    ensures Understood(rules, inMemory, rest + x, scan, partial)
  {
    hide FirstCrlf, BulkHeader;
    if partial.BulkAwaited? {
      CrlfExtends(rest, x, 1);
      assert (rest + x)[1..partial.header - 2] == rest[1..partial.header - 2];
    } else if partial.InLine? {
      forall j: nat | 1 <= j < partial.scanned - scan ensures !CrlfAt(rest + x, j) {
        assert !CrlfAt(rest, j);
      }
    }
  }

  /** A position rebased after a cut from the buffer's front. */
  function Rebased(partial: Partial, cut: nat): Partial
    requires partial.InLine? ==> cut <= partial.scanned
  {
    if partial.InLine? then InLine(partial.scanned - cut) else partial
  }

  lemma UnderstoodRebases(rules: Rules, inMemory: nat, rest: seq<byte>, scan: nat, partial: Partial, cut: nat)
    requires Understood(rules, inMemory, rest, scan, partial) && cut <= scan
    ensures partial.InLine? ==> cut <= partial.scanned
    ensures Understood(rules, inMemory, rest, scan - cut, Rebased(partial, cut))
    ensures LookedAt(scan - cut, Rebased(partial, cut)) == LookedAt(scan, partial)
  {
  }

  lemma {:induction false} SkipsTo(s: seq<byte>, i: nat, j: nat)
    requires i <= j && forall k: nat :: i <= k < j ==> !CrlfAt(s, k)
    ensures FirstCrlf(s, i) == FirstCrlf(s, j)
    decreases j - i
  {
    if i < j {
      assert !CrlfAt(s, i);
      SkipsTo(s, i + 1, j);
    }
  }

  datatype Reply<+T> = Malformed | Nothing | Something(value: T)

  class Decoding {
    var frameStart: nat
    var scan: nat
    var partial: Partial
    var stack: seq<Pending>
    var inMemory: nat
    var examined: nat
    /** Bytes cut from the buffer's front so far, and times the reader ran out of input. */
    ghost var dropped: nat
    ghost var waits: nat

    ghost function State(): Machine
      requires frameStart <= scan
      reads this
    {
      Machine(stack, inMemory, scan - frameStart)
    }

    /** No more has been looked at than was fed, but for one byte each time input ran out. */
    ghost predicate Frugal(buf: seq<byte>)
      reads this
    {
      examined <= dropped + |buf| + waits
    }

    ghost predicate Valid(rules: Rules, buf: seq<byte>)
      reads this
    {
      && frameStart <= scan <= |buf|
      && MachineOk(rules, State())
      && Understood(rules, inMemory, buf[scan..], scan, partial)
      && examined <= dropped + scan + LookedAt(scan, partial) + waits
    }

    constructor ()
      ensures frameStart == scan == 0 && State() == FRESH && partial == Start
      ensures examined == 0 && dropped == 0 && waits == 0
      ensures forall rules, buf :: Valid(rules, buf)
    {
      frameStart, scan, partial := 0, 0, Start;
      stack, inMemory, examined := [], 0, 0;
      dropped, waits := 0, 0;
    }

    method ShiftBack(cut: nat, ghost rules: Rules, ghost buf: seq<byte>)
      requires Valid(rules, buf) && cut == frameStart
      modifies this
      ensures Valid(rules, buf[cut..])
      ensures State() == old(State()) && frameStart == 0 && buf[cut..][scan..] == old(buf[scan..])
      ensures dropped == old(dropped) + cut && waits == old(waits) && examined == old(examined)
    {
      hide MachineOk, Understood, LookedAt, Rebased;
      UnderstoodRebases(rules, inMemory, buf[scan..], scan, partial, cut);
      assert buf[cut..][scan - cut..] == buf[scan..];
      frameStart := frameStart - cut;
      scan := scan - cut;
      dropped := dropped + cut;
      partial := Rebased(partial, cut);
    }

    /** The first line end from `start` on, resuming a search an earlier call left unfinished. */
    method FindCrlf(buf: seq<byte>, start: nat, ghost rules: Rules) returns (r: Option<nat>)
      requires start == scan + 1 <= |buf| && !partial.BulkAwaited? && IsKind(buf[scan])
      requires Understood(rules, inMemory, buf[scan..], scan, partial)
      modifies this`partial, this`examined
      ensures r.Some? <==> FirstCrlf(buf[scan..], 1).Some?
      ensures r.Some? ==> r.value == scan + FirstCrlf(buf[scan..], 1).value && partial == Start
      ensures r.Some? ==> examined == old(examined) + r.value + 1 - scan - old(LookedAt(scan, partial))
      ensures r.None? ==> partial.InLine? && Understood(rules, inMemory, buf[scan..], scan, partial)
      ensures r.None? ==> examined == old(examined) + LookedAt(scan, partial) - old(LookedAt(scan, partial))
    {
      hide FirstCrlf;
      ghost var rest := buf[scan..];
      var resume := if partial.InLine? && partial.scanned > start then partial.scanned else start;
      var i := resume;
      while i + 1 < |buf|
        invariant resume <= i <= |buf|
        invariant (i == scan + 1 || i < |buf|) && Searched(rest, i - scan)
        invariant partial == old(partial) && examined == old(examined)
      {
        assert rest[i - scan] == buf[i] && rest[i + 1 - scan] == buf[i + 1];
        if buf[i] == CR && buf[i + 1] == LF {
          FoundAt(rest, i - scan);
          examined := examined + (i + 2 - resume);
          partial := Start;
          return Some(i);
        }
        i := i + 1;
      }
      NotFound(rest, i - scan);
      examined := examined + (i - resume);
      partial := InLine(i);
      return None;
    }

    /** Completes a bulk whose header has been read: waiting is comparing two numbers. */
    method FinishBulk(buf: seq<byte>, header: nat, len: nat) returns (r: Reply<Frame>)
      requires scan + header <= |buf| && partial == BulkAwaited(header, len)
      modifies this`scan, this`partial, this`examined
      ensures match BulkBody(buf[old(scan)..], header, len)
              case More => r == Nothing && scan == old(scan) && partial == old(partial) && examined == old(examined)
              case Bad => r == Malformed && examined == old(examined)
              case Got(e, size) => e == Value(Bulk(buf[old(scan) + header..old(scan) + header + len]))
                                   && r == Something(e.frame) && scan == old(scan) + size && partial == Start
                                   && examined == old(examined) + len
    {
      ghost var rest := buf[scan..];
      var end := scan + header + len + 2;
      if end > |buf| {
        return Nothing;
      }
      var payloadStart := scan + header;
      var payloadEnd := payloadStart + len;
      assert rest[header + len..header + len + 2] == buf[payloadEnd..end];
      assert rest[header..header + len] == buf[payloadStart..payloadEnd];
      if buf[payloadEnd..end] != CRLF {
        return Malformed;
      }
      examined := examined + len;
      scan := end;
      partial := Start;
      return Something(Bulk(buf[payloadStart..payloadEnd]));
    }

    /** Skips the empty lines between two frames, and says whether half of one is left. */
    method SkipEmptyLines(buf: seq<byte>, ghost rules: Rules) returns (half: bool)
      requires Valid(rules, buf) && stack == [] && partial == Start
      modifies this`scan, this`frameStart, this`examined
      ensures Valid(rules, buf)
      ensures NextFrame(rules, State(), buf[scan..]) == old(NextFrame(rules, State(), buf[scan..]))
      ensures half <==> buf[scan..] == [CR]
      ensures !CrlfAt(buf[scan..], 0) && scan >= old(scan)
    {
      hide NextFrame, Held;
      while scan < |buf| && buf[scan] == CR
        invariant Valid(rules, buf) && scan >= old(scan)
        invariant NextFrame(rules, State(), buf[scan..]) == old(NextFrame(rules, State(), buf[scan..]))
        decreases |buf| - scan
      {
        assert buf[scan..][0] == CR;
        if scan + 1 == |buf| {
          return true;
        }
        assert buf[scan..][1] == buf[scan + 1];
        if buf[scan + 1] != LF {
          break;
        }
        SkipsOne(rules, State(), buf[scan..]);
        assert buf[scan..][2..] == buf[scan + 2..];
        scan := scan + 2;
        frameStart := scan;
        examined := examined + 2;
      }
      return false;
    }

    /** Reads on from a type byte, or from what is already understood of its element. */
    method ReadTyped(rules: Rules, buf: seq<byte>) returns (r: Reply<Element>)
      requires Valid(rules, buf)
      modifies this`scan, this`partial, this`examined, this`waits
      ensures match ReadElement(rules, |stack|, inMemory, old(buf[scan..]))
              case More => r == Nothing && Valid(rules, buf) && scan == old(scan)
              case Bad => r == Malformed && Frugal(buf)
              case Got(e, size) => r == Something(e) && scan == old(scan) + size && partial == Start
                                   && scan <= |buf| && examined <= dropped + scan + waits
      ensures waits == old(waits) + if r.Nothing? then 1 else 0
    {
      hide FirstCrlf, MachineOk, ReadLine, Searched;
      ghost var rest := buf[scan..];
      if partial.BulkAwaited? {
        UnderstoodBulk(rules, |stack|, inMemory, rest, scan, partial);
        r := ReadBulkOn(rules, buf);
        return;
      }
      if scan == |buf| {
        waits := waits + 1;
        return Nothing;
      }
      examined := examined + 1;
      assert rest[0] == buf[scan];
      if !IsKind(buf[scan]) {
        return Malformed;
      }
      var end := FindCrlf(buf, scan + 1, rules);
      if end.None? {
        waits := waits + 1;
        return Nothing;
      }
      assert examined <= dropped + end.value + 2 + waits;
      r := ReadLineAt(rules, buf, end.value);
    }

    /** The element whose line has been found. */
    method ReadLineAt(rules: Rules, buf: seq<byte>, end: nat) returns (r: Reply<Element>)
      requires frameStart <= scan < end && scan < |buf| && partial == Start
      requires CrlfAt(buf[scan..], end - scan) && IsKind(buf[scan])
      requires FirstCrlf(buf[scan..], 1) == Some(end - scan) && MachineOk(rules, State())
      requires examined <= dropped + end + 2 + waits
      modifies this`scan, this`partial, this`examined, this`waits
      ensures match ReadLine(rules, |stack|, inMemory, old(buf[scan..]), end - old(scan))
              case More => r == Nothing && Valid(rules, buf) && scan == old(scan)
              case Bad => r == Malformed && Frugal(buf)
              case Got(e, size) => r == Something(e) && scan == old(scan) + size && partial == Start
                                   && scan <= |buf| && examined <= dropped + scan + waits
      ensures waits == old(waits) + if r.Nothing? then 1 else 0
    {
      hide FirstCrlf, MachineOk, Searched, Decimals.ParseI64, BulkHeader, ArrayCount, BulkBody;
      ghost var rest := buf[scan..];
      var field, next := buf[scan + 1..end], end + 2;
      assert rest[1..end - scan] == field && rest[0] == buf[scan];
      if buf[scan] == PLUS {
        if !rules.isUtf8(field) {
          return Malformed;
        }
        r := Something(Value(Simple(field)));
      } else if buf[scan] == DASH {
        if !rules.isUtf8(field) {
          return Malformed;
        }
        r := Something(Value(Error(field)));
      } else if buf[scan] == COLON {
        var n := ParseI64(field);
        if n.None? {
          return Malformed;
        }
        r := Something(Value(Integer(n.value)));
      } else if buf[scan] == DOLLAR {
        match BulkHeader(rules, inMemory, field) {
          case BadLength => return Malformed;
          case NullBulk => r := Something(Value(Null));
          case Length(len) =>
            partial := BulkAwaited(next - scan, len);
            r := ReadBulkOn(rules, buf);
            return;
        }
      } else {
        var count := ArrayCount(rules, |stack|, inMemory, field);
        if count.None? {
          return Malformed;
        }
        r := Something(ArrayHeader(count.value));
      }
      scan := next;
    }

    /** A bulk whose header is understood, read on. */
    method ReadBulkOn(rules: Rules, buf: seq<byte>) returns (r: Reply<Element>)
      requires Valid(rules, buf) && partial.BulkAwaited?
      modifies this`scan, this`partial, this`examined, this`waits
      ensures match BulkBody(old(buf[scan..]), old(partial).header, old(partial).len)
              case More => r == Nothing && Valid(rules, buf) && scan == old(scan)
              case Bad => r == Malformed && Frugal(buf)
              case Got(e, size) => r == Something(e) && scan == old(scan) + size && partial == Start
                                   && scan <= |buf| && examined <= dropped + scan + waits
      ensures waits == old(waits) + if r.Nothing? then 1 else 0
    {
      hide FirstCrlf, MachineOk, BulkHeader;
      ghost var rest := buf[scan..];
      var header, len := partial.header, partial.len;
      assert header + len <= |rest| ==> rest[header..header + len] == buf[scan + header..scan + header + len];
      var done := FinishBulk(buf, header, len);
      match done {
        case Malformed => return Malformed;
        case Nothing =>
          waits := waits + 1;
          return Nothing;
        case Something(f) => return Something(Value(f));
      }
    }

    /** Pops the innermost array if it has all its elements. */
    method PopFilled() returns (r: Option<Frame>)
      requires stack != []
      modifies this`stack
      ensures var top := old(stack)[|old(stack)| - 1];
              if top.remaining == 0 then r == Some(Array(top.elements)) && stack == old(stack)[..|old(stack)| - 1]
              else r == None && stack == old(stack)
    {
      var top := stack[|stack| - 1];
      if top.remaining != 0 {
        return None;
      }
      stack := stack[..|stack| - 1];
      return Some(Array(top.elements));
    }

    /** Accounts for a frame before it is held: a charge exact but for this frame is exact with it,
        and one that would pass the limit is refused. */
    method Charge(rules: Rules, frame: Frame) returns (ok: bool)
      modifies this`inMemory
      ensures ok <==> Affords(rules, old(inMemory), NodeCost(rules, frame))
      ensures inMemory == old(inMemory) + if ok then NodeCost(rules, frame) else 0
      ensures old(inMemory) <= rules.maxInMemory ==>
                && inMemory <= rules.maxInMemory
                && (ok <==> old(inMemory) + NodeCost(rules, frame) <= rules.maxInMemory)
      ensures ok && old(inMemory) + NodeCost(rules, frame) == Held(rules, stack) + Cost(rules, frame) ==>
                inMemory == Held(rules, stack) + Cost(rules, frame)
    {
      var cost := rules.frameSize + PayloadBytes(frame);
      if !Affords(rules, inMemory, cost) {
        return false;
      }
      inMemory := inMemory + cost;
      return true;
    }

    /** Attaches an element to the innermost array and cascades through every array it fills. */
    method PlaceElement(rules: Rules, element: Element) returns (r: Reply<Frame>)
      requires frameStart <= scan && forall k :: 0 <= k < |stack| ==> stack[k].remaining >= 1
      modifies this`stack, this`inMemory
      ensures match Place(rules, old(State()), element)
              case Refusal => r == Malformed
              case Owing(m) => r == Nothing && State() == m
              case Complete(f, _) => r == Something(f) && stack == [] && inMemory == 0
    {
      hide Affords, NodeCost, Put;
      var value: Frame;
      if element.ArrayHeader? {
        stack := stack + [Pending(element.count, [])];
        var filled := PopFilled();
        if filled.None? {
          return Nothing;
        }
        value := filled.value;
        assert stack == old(stack);
      } else {
        value := element.frame;
      }
      while true
        invariant forall k :: 0 <= k < |stack| ==> stack[k].remaining >= 1
        invariant Put(rules, State(), value) == Place(rules, old(State()), element)
        decreases |stack|
      {
        PutStep(rules, State(), value);
        var charged := Charge(rules, value);
        if !charged {
          return Malformed;
        }
        if stack == [] {
          inMemory := 0;
          return Something(value);
        }
        var n := |stack| - 1;
        var top, below := stack[n], stack[..n];
        stack := stack[n := Pending(top.remaining - 1, top.elements + [value])];
        assert stack[..n] == below && stack == below + [stack[n]];
        var filled := PopFilled();
        if filled.None? {
          return Nothing;
        }
        value := filled.value;
      }
    }

    /** Reads the element at `scan`, past any empty lines before it, and moves past it. */
    method ReadNext(rules: Rules, buf: seq<byte>) returns (r: Reply<Element>)
      requires Valid(rules, buf)
      modifies this`scan, this`frameStart, this`partial, this`examined, this`waits
      ensures Frugal(buf) && waits == old(waits) + if r.Nothing? then 1 else 0
      ensures !r.Malformed? ==> frameStart <= scan <= |buf|
      ensures var next := old(NextFrame(rules, State(), buf[scan..]));
              match r
              case Malformed => next == Refused
              case Nothing => Valid(rules, buf) && next == Kept(rules, State(), buf[scan..])
              case Something(e) => next == Continue(rules, Place(rules, State(), e), buf[scan..])
                                   && Placeable(rules, State(), e) && scan > old(scan) && partial == Start
                                   && examined <= dropped + scan + waits
    {
      hide NextFrame, MachineOk, ReadElement, Place, Understood, LookedAt, Continue, Placeable, Kept, CrlfAt;
      if stack == [] && partial.Start? {
        var half := SkipEmptyLines(buf, rules);
        if half {
          HalfLineWaits(rules, State(), buf[scan..]);
          LookedAtWithin(rules, inMemory, buf[scan..], scan, partial);
          waits := waits + 1;
          return Nothing;
        }
      }
      ghost var m, rest := State(), buf[scan..];
      KindIsNoLineEnd(rules, inMemory, rest, scan, partial);
      OneStep(rules, m, rest);
      r := ReadTyped(rules, buf);
      if r.Nothing? {
        LookedAtWithin(rules, inMemory, buf[scan..], scan, partial);
      }
      if r.Something? {
        ghost var size := |rest| - |buf[scan..]|;
        assert buf[scan..] == rest[size..];
        assert State() == m.(used := m.used + size);
      }
    }

    /** Reads elements until one completes a frame; what is understood when the input runs out
        is kept. */
    method Step(rules: Rules, buf: seq<byte>) returns (r: Reply<Frame>)
      requires Valid(rules, buf)
      modifies this
      ensures match NextFrame(rules, old(State()), old(buf[scan..]))
              case Refused => r == Malformed
              case Waiting(m, rest) => r == Nothing && Valid(rules, buf) && State() == m && buf[scan..] == rest
              case Delivered(f, rest) => r == Something(f) && frameStart <= scan <= |buf| && buf[scan..] == rest
                                         && stack == [] && inMemory == 0 && partial == Start
                                         && examined <= dropped + scan + waits
      ensures Frugal(buf) && dropped == old(dropped) && waits <= old(waits) + 1
    {
      hide NextFrame, MachineOk, Place, Understood, LookedAt, Placeable;
      ghost var goal := NextFrame(rules, State(), buf[scan..]);
      while true
        invariant Valid(rules, buf) && NextFrame(rules, State(), buf[scan..]) == goal
        invariant dropped == old(dropped) && waits == old(waits)
        decreases |buf| - scan
      {
        var element := ReadNext(rules, buf);
        if element.Malformed? {
          return Malformed;
        }
        if element.Nothing? {
          if |buf| - frameStart > rules.maxFrameBytes {
            return Malformed;
          }
          return Nothing;
        }
        PlaceableMeans(rules, State(), element.value);
        var placed := PlaceElement(rules, element.value);
        if placed.Malformed? {
          return Malformed;
        }
        if placed.Something? {
          if scan - frameStart > rules.maxFrameBytes {
            return Malformed;
          }
          return placed;
        }
        NothingUnderstood(rules, inMemory, buf[scan..], scan);
      }
    }

    /** The next frame starts where the delivered one ended. */
    method FinishFrame(ghost rules: Rules, ghost buf: seq<byte>)
      requires frameStart <= scan <= |buf| && stack == [] && inMemory == 0 && examined <= dropped + scan + waits
      modifies this`frameStart, this`partial, this`inMemory
      ensures Valid(rules, buf) && State() == FRESH && frameStart == scan
    {
      frameStart := scan;
      partial := Start;
      inMemory := 0;
    }
  }

  /** An element read can be placed: no array is already full, what is owed afterwards is within
      the limits, and a frame completed has all its bytes counted. */
  ghost predicate Placeable(rules: Rules, m: Machine, e: Element)
  {
    && (forall k :: 0 <= k < |m.stack| ==> m.stack[k].remaining >= 1)
    && var p := Place(rules, m, e);
       && (p.Owing? ==> MachineOk(rules, p.machine))
       && (p.Complete? ==> p.used == m.used)
  }

  lemma PlaceableMeans(rules: Rules, m: Machine, e: Element)
    requires Placeable(rules, m, e)
    ensures forall k :: 0 <= k < |m.stack| ==> m.stack[k].remaining >= 1
    ensures var p := Place(rules, m, e);
            (p.Owing? ==> MachineOk(rules, p.machine)) && (p.Complete? ==> p.used == m.used)
  {
  }

  lemma NothingUnderstood(rules: Rules, inMemory: nat, rest: seq<byte>, scan: nat)
    ensures Understood(rules, inMemory, rest, scan, Start) && LookedAt(scan, Start) == 0
  {
  }

  /** One element of a frame, read and placed. */
  lemma OneStep(rules: Rules, m: Machine, rest: seq<byte>)
    requires MachineOk(rules, m) && (m.stack == [] ==> rest != [CR] && !CrlfAt(rest, 0))
    ensures var r := ReadElement(rules, |m.stack|, m.inMemory, rest);
            && (r.More? ==> NextFrame(rules, m, rest) == Kept(rules, m, rest))
            && (r.Bad? ==> NextFrame(rules, m, rest) == Refused)
            && (r.Got? ==> var m' := m.(used := m.used + r.size);
                           && NextFrame(rules, m, rest) == Continue(rules, Place(rules, m', r.element), rest[r.size..])
                           && Placeable(rules, m', r.element))
  {
    hide ReadElement, Place, MachineOk, Advance, NextFrame, Continue, Kept;
    AdvanceKeepsOk(rules, m, rest);
    AdvanceReads(rules, m, rest);
    NextReads(rules, m, rest);
    OwesSome(rules, m);
    var r := ReadElement(rules, |m.stack|, m.inMemory, rest);
    if r.Got? {
      PlaceKeepsUsed(rules, m.(used := m.used + r.size), r.element);
    }
  }

  lemma LookedAtWithin(rules: Rules, inMemory: nat, rest: seq<byte>, scan: nat, partial: Partial)
    requires Understood(rules, inMemory, rest, scan, partial)
    ensures LookedAt(scan, partial) <= |rest|
  {
  }

  lemma HalfLineWaits(rules: Rules, m: Machine, rest: seq<byte>)
    requires m.stack == [] && rest == [CR]
    ensures NextFrame(rules, m, rest) == Kept(rules, m, rest)
  {
  }

  /** An element already begun does not begin with a line end. */
  lemma KindIsNoLineEnd(rules: Rules, inMemory: nat, rest: seq<byte>, scan: nat, partial: Partial)
    requires Understood(rules, inMemory, rest, scan, partial)
    ensures partial != Start ==> rest != [CR] && !CrlfAt(rest, 0)
  {
  }

  lemma OwesSome(rules: Rules, m: Machine)
    requires MachineOk(rules, m)
    ensures forall k :: 0 <= k < |m.stack| ==> m.stack[k].remaining >= 1
  {
    forall k | 0 <= k < |m.stack| ensures m.stack[k].remaining >= 1 {
      assert LevelOk(rules, m.stack[k], k + 1);
    }
  }

  /** One round of placing. */
  lemma PutStep(rules: Rules, m: Machine, f: Frame)
    ensures !Affords(rules, m.inMemory, NodeCost(rules, f)) ==> Put(rules, m, f) == Refusal
    ensures Affords(rules, m.inMemory, NodeCost(rules, f)) && m.stack == [] ==> Put(rules, m, f) == Complete(f, m.used)
    ensures Affords(rules, m.inMemory, NodeCost(rules, f)) && m.stack != [] ==>
              var n := |m.stack| - 1;
              var top, elements := m.stack[n], m.stack[n].elements + [f];
              var below := Machine(m.stack[..n], m.inMemory + NodeCost(rules, f), m.used);
              if top.remaining <= 1 then Put(rules, m, f) == Put(rules, below, Array(elements))
              else Put(rules, m, f) == Owing(below.(stack := m.stack[..n] + [Pending(top.remaining - 1, elements)]))
  {
    hide Affords, NodeCost;
  }

  lemma SkipsOne(rules: Rules, m: Machine, rest: seq<byte>)
    requires m.stack == [] && m.used == 0 && CrlfAt(rest, 0)
    ensures NextFrame(rules, m, rest) == NextFrame(rules, m, rest[2..])
  {
    assert Advance(rules, m, rest) == On(m, 2);
  }

  /** Reading on from a bulk header already understood is reading the element. */
  lemma UnderstoodBulk(rules: Rules, depth: nat, inMemory: nat, rest: seq<byte>, scan: nat, partial: Partial)
    requires Understood(rules, inMemory, rest, scan, partial) && partial.BulkAwaited?
    ensures ReadElement(rules, depth, inMemory, rest) == BulkBody(rest, partial.header, partial.len)
  {
    hide FirstCrlf, BulkHeader;
  }

  lemma FoundAt(s: seq<byte>, i: nat)
    requires 1 <= i && CrlfAt(s, i) && Searched(s, i)
    ensures FirstCrlf(s, 1) == Some(i)
  {
    SkipsTo(s, 1, i);
  }

  lemma NotFound(s: seq<byte>, i: nat)
    requires 1 <= i && i + 1 >= |s| && Searched(s, i)
    ensures FirstCrlf(s, 1) == None
  {
    SkipsTo(s, 1, i);
  }
}
