/**
 What a decoder holds and delivers: its charge is exactly the recursive cost of the frames on its
 stack, within the limit in every reachable state, and so are the frames it delivers.
 */
module RespLimits {
  import opened Basics
  import opened Decimals
  import opened Resp
  import opened RespMachine
  import opened RespChunks

  predicate PairFree(text: seq<byte>)
  {
    forall i :: 0 <= i < |text| ==> !CrlfAt(text, i)
  }

  /** A frame the protocol accepts within `levels` levels of nesting. */
  predicate Allowed(rules: Rules, f: Frame, levels: nat)
    decreases f
  {
    match f
    case Simple(text) => rules.isUtf8(text) && PairFree(text)
    case Error(text) => rules.isUtf8(text) && PairFree(text)
    case Integer(value) => -0x8000_0000_0000_0000 <= value <= 0x7FFF_FFFF_FFFF_FFFF
    case Bulk(payload) => |payload| <= 16_777_216
    case Null => true
    case Array(elements) =>
      && levels >= 1 && |elements| <= 1_048_576
      && forall i :: 0 <= i < |elements| ==> Allowed(rules, elements[i], levels - 1)
  }

  /** What a frame takes up in memory, its elements included. */
  function Cost(rules: Rules, f: Frame): nat
    decreases f
  {
    NodeCost(rules, f) + if f.Array? then CostAll(rules, f.elements) else 0
  }

  function CostAll(rules: Rules, frames: seq<Frame>): nat
    decreases frames
  {
    if frames == [] then 0 else CostAll(rules, frames[..|frames| - 1]) + Cost(rules, frames[|frames| - 1])
  }

  /** What the frames held on a stack take up. */
  function Held(rules: Rules, stack: seq<Pending>): nat
  {
    if stack == [] then 0 else Held(rules, stack[..|stack| - 1]) + CostAll(rules, stack[|stack| - 1].elements)
  }

  /** An array at a nesting level: it still owes elements, and those it has fit below it. */
  predicate LevelOk(rules: Rules, p: Pending, level: nat)
  {
    && p.remaining >= 1 && |p.elements| + p.remaining <= MAX_ARRAY_LEN && level <= MAX_ARRAY_DEPTH
    && forall i :: 0 <= i < |p.elements| ==> Allowed(rules, p.elements[i], MAX_ARRAY_DEPTH - level)
  }

  predicate StackOk(rules: Rules, stack: seq<Pending>)
  {
    forall k :: 0 <= k < |stack| ==> LevelOk(rules, stack[k], k + 1)
  }

  /** Every reachable state: the charge is exact and within the limit, and nesting is bounded. */
  predicate MachineOk(rules: Rules, m: Machine)
    ensures MachineOk(rules, m) ==> Settled(m) && m.inMemory <= rules.maxInMemory
  {
    && m.inMemory == Held(rules, m.stack) <= rules.maxInMemory
    && |m.stack| <= MAX_ARRAY_DEPTH
    && StackOk(rules, m.stack)
    && (m.stack == [] ==> m.used == 0)
  }

  lemma CostAppends(rules: Rules, frames: seq<Frame>, f: Frame)
    ensures CostAll(rules, frames + [f]) == CostAll(rules, frames) + Cost(rules, f)
  {
    assert (frames + [f])[..|frames|] == frames;
  }

  lemma HeldPushes(rules: Rules, stack: seq<Pending>, p: Pending)
    ensures Held(rules, stack + [p]) == Held(rules, stack) + CostAll(rules, p.elements)
  {
    assert (stack + [p])[..|stack|] == stack;
  }

  /** Placing a value whose elements are already charged keeps the charge exact through every
      array it fills. */
  lemma {:induction false} PutKeepsOk(rules: Rules, m: Machine, f: Frame)
    requires m.inMemory + NodeCost(rules, f) == Held(rules, m.stack) + Cost(rules, f)
    requires m.inMemory <= rules.maxInMemory && |m.stack| <= MAX_ARRAY_DEPTH && StackOk(rules, m.stack)
    requires Allowed(rules, f, MAX_ARRAY_DEPTH - |m.stack|)
    ensures var p := Put(rules, m, f);
            && (p.Owing? ==> MachineOk(rules, p.machine))
            && (p.Complete? ==> Allowed(rules, p.frame, MAX_ARRAY_DEPTH) && Cost(rules, p.frame) <= rules.maxInMemory)
    decreases |m.stack|
  {
    hide Allowed, Cost, CostAll, Held, NodeCost;
    var cost := NodeCost(rules, f);
    if Affords(rules, m.inMemory, cost) {
      if m.stack == [] {
        NothingHeld(rules);
      } else {
        var n := |m.stack| - 1;
        var top, elements := m.stack[n], m.stack[n].elements + [f];
        var below := Machine(m.stack[..n], m.inMemory + cost, m.used);
        assert LevelOk(rules, top, n + 1);
        assert m.stack == m.stack[..n] + [top];
        HeldPushes(rules, m.stack[..n], top);
        CostAppends(rules, top.elements, f);
        if top.remaining <= 1 {
          ArrayAllowed(rules, elements, MAX_ARRAY_DEPTH - n);
          ArrayCost(rules, elements);
          PutKeepsOk(rules, below, Array(elements));
        } else {
          HeldPushes(rules, m.stack[..n], Pending(top.remaining - 1, elements));
        }
      }
    }
  }

  lemma NothingHeld(rules: Rules)
    ensures Held(rules, []) == 0
  {
  }

  lemma ArrayAllowed(rules: Rules, elements: seq<Frame>, levels: nat)
    requires levels >= 1 && |elements| <= MAX_ARRAY_LEN
    requires forall i :: 0 <= i < |elements| ==> Allowed(rules, elements[i], levels - 1)
    ensures Allowed(rules, Array(elements), levels)
  {
  }

  lemma ArrayCost(rules: Rules, elements: seq<Frame>)
    ensures Cost(rules, Array(elements)) == rules.frameSize + CostAll(rules, elements)
    ensures NodeCost(rules, Array(elements)) == rules.frameSize
  {
  }

  /** Whatever is read is allowed at its level, except for the arrays it is still to fill. */
  lemma ReadIsAllowed(rules: Rules, depth: nat, inMemory: nat, s: seq<byte>)
    requires depth <= MAX_ARRAY_DEPTH
    ensures var r := ReadElement(rules, depth, inMemory, s);
            r.Got? ==> match r.element
                       case Value(f) => !f.Array? && Allowed(rules, f, MAX_ARRAY_DEPTH - depth)
                       case ArrayHeader(count) => count <= MAX_ARRAY_LEN && depth + 1 <= MAX_ARRAY_DEPTH
  {
    hide Decimals.ParseI64, BulkHeader, ArrayCount, FirstCrlf;
    if s != [] && IsKind(s[0]) && FirstCrlf(s, 1).Some? {
      var end := FirstCrlf(s, 1).value;
      FieldIsPairFree(s, end);
      FieldInRange(s[1..end]);
    }
  }

  lemma FieldInRange(field: seq<byte>)
    ensures ParseI64(field).Some? ==> I64_MIN <= ParseI64(field).value <= I64_MAX
  {
  }

  lemma {:induction false} NoneBeforeFirst(s: seq<byte>, i: nat, j: nat)
    requires i <= j && (FirstCrlf(s, i).Some? ==> j < FirstCrlf(s, i).value)
    ensures !CrlfAt(s, j)
    decreases |s| - i
  {
    if i + 1 < |s| && !CrlfAt(s, i) && i < j {
      NoneBeforeFirst(s, i + 1, j);
    }
  }

  lemma FieldIsPairFree(s: seq<byte>, end: nat)
    requires FirstCrlf(s, 1) == Some(end)
    ensures PairFree(s[1..end])
  {
    forall i | 0 <= i < end - 1 ensures !CrlfAt(s[1..end], i) {
      NoneBeforeFirst(s, 1, i + 1);
    }
  }

  lemma LeafCost(rules: Rules, f: Frame)
    requires !f.Array?
    ensures Cost(rules, f) == NodeCost(rules, f)
  {
  }

  lemma PlaceKeepsOk(rules: Rules, m: Machine, e: Element)
    requires MachineOk(rules, m) || (m.used > 0 && MachineOk(rules, m.(used := 0)))
    requires match e
             case Value(f) => !f.Array? && Allowed(rules, f, MAX_ARRAY_DEPTH - |m.stack|)
             case ArrayHeader(count) => count <= MAX_ARRAY_LEN && |m.stack| + 1 <= MAX_ARRAY_DEPTH
    ensures var p := Place(rules, m, e);
            && (p.Owing? ==> MachineOk(rules, p.machine))
            && (p.Complete? ==> Allowed(rules, p.frame, MAX_ARRAY_DEPTH) && Cost(rules, p.frame) <= rules.maxInMemory)
  {
    hide Allowed, Cost, CostAll, Held, Put;
    if e.Value? {
      LeafCost(rules, e.frame);
      PutKeepsOk(rules, m, e.frame);
    } else if e.count == 0 {
      ArrayAllowed(rules, [], MAX_ARRAY_DEPTH - |m.stack|);
      ArrayCost(rules, []);
      NothingCosts(rules);
      PutKeepsOk(rules, m, Array([]));
    } else {
      NothingCosts(rules);
      HeldPushes(rules, m.stack, Pending(e.count, []));
    }
  }

  lemma NothingCosts(rules: Rules)
    ensures CostAll(rules, []) == 0
  {
  }

  /** Every move keeps the charge exact and the nesting bounded. */
  lemma AdvanceKeepsOk(rules: Rules, m: Machine, rest: seq<byte>)
    requires MachineOk(rules, m)
    ensures var r := Advance(rules, m, rest);
            && (r.On? ==> MachineOk(rules, r.machine))
            && (r.Whole? ==> Allowed(rules, r.frame, MAX_ARRAY_DEPTH) && Cost(rules, r.frame) <= rules.maxInMemory
                             && m.used + r.size <= rules.maxFrameBytes)
  {
    hide Allowed, Cost, CostAll, Held, ReadElement, Place, StackOk;
    ReadIsAllowed(rules, |m.stack|, m.inMemory, rest);
    var r := ReadElement(rules, |m.stack|, m.inMemory, rest);
    if r.Got? {
      var m' := m.(used := m.used + r.size);
      assert m'.(used := 0) == m.(used := 0);
      PlaceKeepsOk(rules, m', r.element);
      PlaceKeepsUsed(rules, m', r.element);
    }
  }

  lemma {:induction false} NextKeepsOk(rules: Rules, m: Machine, rest: seq<byte>)
    requires MachineOk(rules, m)
    ensures var r := NextFrame(rules, m, rest);
            && (r.Waiting? ==> MachineOk(rules, r.machine) && r.machine.used + |r.rest| <= rules.maxFrameBytes)
            && (r.Delivered? ==> Allowed(rules, r.frame, MAX_ARRAY_DEPTH) && Cost(rules, r.frame) <= rules.maxInMemory)
    decreases |rest|
  {
    hide Allowed, Cost, MachineOk, Advance;
    AdvanceKeepsOk(rules, m, rest);
    var r := Advance(rules, m, rest);
    if r.On? {
      NextKeepsOk(rules, r.machine, rest[r.size..]);
    }
  }

  /** A frame delivered took no more bytes on the wire than a frame may, empty lines before it
      not counted. */
  lemma {:induction false} DeliveredWithinBytes(rules: Rules, m: Machine, rest: seq<byte>)
    requires NextFrame(rules, m, rest).Delivered?
    requires m.stack != [] || (rest != [] && rest[0] != CR)
    ensures m.used + |rest| - |NextFrame(rules, m, rest).rest| <= rules.maxFrameBytes
    decreases |rest|
  {
    hide ReadElement, Place, NextFrame;
    NextReads(rules, m, rest);
    var r := ReadElement(rules, |m.stack|, m.inMemory, rest);
    var m' := m.(used := m.used + r.size);
    PlaceKeepsUsed(rules, m', r.element);
    var p := Place(rules, m', r.element);
    if p.Owing? {
      DeliveredWithinBytes(rules, p.machine, rest[r.size..]);
    }
  }

  lemma FreshOk(rules: Rules)
    ensures MachineOk(rules, FRESH)
  {
  }

  /** Over any bytes in any chunks, every frame delivered is one the protocol accepts and fits
      in memory, and so does everything still held. */
  lemma {:induction false} DrainKeepsOk(rules: Rules, m: Machine, rest: seq<byte>)
    requires MachineOk(rules, m)
    ensures var (frames, end) := Drain(rules, m, rest);
            && (forall i :: 0 <= i < |frames| ==>
                  Allowed(rules, frames[i], MAX_ARRAY_DEPTH) && Cost(rules, frames[i]) <= rules.maxInMemory)
            && (end.Open? ==> MachineOk(rules, end.machine))
    decreases |rest|
  {
    hide Allowed, Cost, MachineOk, NextFrame;
    NextKeepsOk(rules, m, rest);
    var r := NextFrame(rules, m, rest);
    if r.Delivered? {
      FreshOk(rules);
      DrainKeepsOk(rules, FRESH, r.rest);
    }
  }
}
