/**
 What the decoder means, apart from how it resumes: elements read one after another from the
 front of the bytes, attached to the arrays still being filled, within the limits.
 */
module RespMachine {
  import opened Basics
  import opened Decimals
  import opened Resp

  const MAX_ARRAY_DEPTH: nat := 64
  const MAX_BULK_LEN: nat := 0x100_0000
  const MAX_ARRAY_LEN: nat := 0x10_0000

  /** The limits, the size of a frame in memory, and which texts are UTF-8. */
  datatype Rules = Rules(maxFrameBytes: nat, maxInMemory: nat, frameSize: nat, isUtf8: seq<byte> -> bool)

  /** An array that still owes elements, with those it has. */
  datatype Pending = Pending(remaining: nat, elements: seq<Frame>)

  datatype Element = Value(frame: Frame) | ArrayHeader(count: nat)

  /** Where a decoder is in a frame: the arrays being filled, outermost first, what they are
      charged, and the bytes of the frame consumed so far. */
  datatype Machine = Machine(stack: seq<Pending>, inMemory: nat, used: nat)

  const FRESH: Machine := Machine([], 0, 0)

  // ---------- Reading one element ----------

  predicate CrlfAt(s: seq<byte>, i: nat)
  {
    i + 1 < |s| && s[i] == CR && s[i + 1] == LF
  }

  /** The first line end at or after `i`. */
  function FirstCrlf(s: seq<byte>, i: nat): (r: Option<nat>)
    ensures r.Some? ==> i <= r.value && CrlfAt(s, r.value)
    decreases |s| - i
  {
    if i + 1 >= |s| then None
    else if CrlfAt(s, i) then Some(i)
    else FirstCrlf(s, i + 1)
  }

  datatype Reading = More | Bad | Got(element: Element, size: nat)

  function Headroom(rules: Rules, inMemory: nat): nat
  {
    if rules.maxInMemory <= inMemory then 0 else rules.maxInMemory - inMemory
  }

  predicate Affords(rules: Rules, inMemory: nat, cost: nat)
  {
    cost <= Headroom(rules, inMemory)
  }

  /** The payload length a `$` line declares, or that the null is meant, or a refusal: the length
      is priced before any payload is waited for. */
  datatype BulkLength = NullBulk | Length(len: nat) | BadLength

  function BulkHeader(rules: Rules, inMemory: nat, field: seq<byte>): (r: BulkLength)
    ensures r.Length? ==> r.len <= MAX_BULK_LEN && Affords(rules, inMemory, rules.frameSize + r.len)
  {
    var n := ParseI64(field);
    if n.None? then BadLength
    else if n.value == -1 then NullBulk
    else if n.value < -1 || n.value > MAX_BULK_LEN then BadLength
    else if !Affords(rules, inMemory, rules.frameSize + n.value) then BadLength
    else Length(n.value)
  }

  /** The count a `*` line declares: sign, then depth, then ceiling, then memory. */
  function ArrayCount(rules: Rules, depth: nat, inMemory: nat, field: seq<byte>): (r: Option<nat>)
    ensures r.Some? ==> r.value <= MAX_ARRAY_LEN && depth + 1 <= MAX_ARRAY_DEPTH
    ensures r.Some? ==> r.value * rules.frameSize <= Headroom(rules, inMemory)
  {
    var n := ParseI64(field);
    if n.None? || n.value < 0 then None
    else if depth + 1 > MAX_ARRAY_DEPTH then None
    else if n.value > MAX_ARRAY_LEN then None
    else if n.value * rules.frameSize > Headroom(rules, inMemory) then None
    else Some(n.value)
  }

  /** A payload of `len` bytes after a header, and the line end that must follow it. */
  function BulkBody(s: seq<byte>, header: nat, len: nat): Reading
    requires header <= |s|
  {
    var end := header + len + 2;
    if end > |s| then More
    else if s[header + len..end] != CRLF then Bad
    else Got(Value(Bulk(s[header..header + len])), end)
  }

  predicate IsKind(b: byte)
  {
    b == PLUS || b == DASH || b == COLON || b == DOLLAR || b == ASTERISK
  }

  /** What the line that ends at `end` says. */
  function ReadLine(rules: Rules, depth: nat, inMemory: nat, s: seq<byte>, end: nat): Reading
    requires 1 <= end && CrlfAt(s, end) && IsKind(s[0])
  {
    var field, next := s[1..end], end + 2;
    if s[0] == PLUS then
      if rules.isUtf8(field) then Got(Value(Simple(field)), next) else Bad
    else if s[0] == DASH then
      if rules.isUtf8(field) then Got(Value(Error(field)), next) else Bad
    else if s[0] == COLON then
      var n := ParseI64(field);
      if n.Some? then Got(Value(Integer(n.value)), next) else Bad
    else if s[0] == DOLLAR then
      match BulkHeader(rules, inMemory, field)
      case BadLength => Bad
      case NullBulk => Got(Value(Null), next)
      case Length(len) => BulkBody(s, next, len)
    else
      var count := ArrayCount(rules, depth, inMemory, field);
      if count.Some? then Got(ArrayHeader(count.value), next) else Bad
  }

  function ReadElement(rules: Rules, depth: nat, inMemory: nat, s: seq<byte>): (r: Reading)
    ensures r.Got? ==> 3 <= r.size <= |s|
  {
    if s == [] then More
    else if !IsKind(s[0]) then Bad
    else
      var end := FirstCrlf(s, 1);
      if end.None? then More else ReadLine(rules, depth, inMemory, s, end.value)
  }

  // ---------- Placing it ----------

  function PayloadBytes(f: Frame): nat
  {
    match f
    case Simple(text) => |text|
    case Error(text) => |text|
    case Bulk(payload) => |payload|
    case _ => 0
  }

  function NodeCost(rules: Rules, f: Frame): nat
  {
    rules.frameSize + PayloadBytes(f)
  }

  datatype Placing = Refusal | Owing(machine: Machine) | Complete(frame: Frame, used: nat)

  /** A value attached to the innermost array, cascading through every array it fills. */
  function Put(rules: Rules, m: Machine, f: Frame): Placing
    decreases |m.stack|
  {
    var cost := NodeCost(rules, f);
    if !Affords(rules, m.inMemory, cost) then Refusal
    else if m.stack == [] then Complete(f, m.used)
    else
      var top := m.stack[|m.stack| - 1];
      var below := Machine(m.stack[..|m.stack| - 1], m.inMemory + cost, m.used);
      var elements := top.elements + [f];
      if top.remaining <= 1 then Put(rules, below, Array(elements))
      else Owing(below.(stack := below.stack + [Pending(top.remaining - 1, elements)]))
  }

  function Place(rules: Rules, m: Machine, e: Element): Placing
  {
    match e
    case Value(f) => Put(rules, m, f)
    case ArrayHeader(count) =>
      if count == 0 then Put(rules, m, Array([]))
      else Owing(m.(stack := m.stack + [Pending(count, [])]))
  }

  // ---------- One element at a time ----------

  datatype Move = Stuck | Fail | On(machine: Machine, size: nat) | Whole(frame: Frame, size: nat)

  /** One move: an empty line between frames is skipped, and anything else is an element. */
  function Advance(rules: Rules, m: Machine, rest: seq<byte>): (r: Move)
    ensures r.On? || r.Whole? ==> 2 <= r.size <= |rest|
  {
    if m.stack == [] && rest == [CR] then Stuck
    else if m.stack == [] && CrlfAt(rest, 0) then On(m.(used := 0), 2)
    else
      match ReadElement(rules, |m.stack|, m.inMemory, rest)
      case More => Stuck
      case Bad => Fail
      case Got(e, size) =>
        match Place(rules, m.(used := m.used + size), e)
        case Refusal => Fail
        case Owing(m') => On(m', size)
        case Complete(f, used) => if used > rules.maxFrameBytes then Fail else Whole(f, size)
  }

  // ---------- One frame at a time ----------

  datatype Next = Refused | Waiting(machine: Machine, rest: seq<byte>) | Delivered(frame: Frame, rest: seq<byte>)

  /** Elements until a frame is whole or the bytes run out; a frame still arriving is refused
      once it is past the limit. */
  function NextFrame(rules: Rules, m: Machine, rest: seq<byte>): (r: Next)
    ensures r.Delivered? ==> |r.rest| < |rest|
    decreases |rest|
  {
    match Advance(rules, m, rest)
    case Fail => Refused
    case Stuck => if m.used + |rest| > rules.maxFrameBytes then Refused else Waiting(m, rest)
    case On(m', size) => NextFrame(rules, m', rest[size..])
    case Whole(f, size) => Delivered(f, rest[size..])
  }

  /** A frame still arriving: kept unless it is already past the limit. */
  function Kept(rules: Rules, m: Machine, rest: seq<byte>): Next
  {
    if m.used + |rest| > rules.maxFrameBytes then Refused else Waiting(m, rest)
  }

  /** What follows once a value is placed. */
  function Continue(rules: Rules, p: Placing, rest: seq<byte>): Next
  {
    match p
    case Refusal => Refused
    case Owing(m) => NextFrame(rules, m, rest)
    case Complete(f, used) => if used > rules.maxFrameBytes then Refused else Delivered(f, rest)
  }

  datatype End = Stopped | Open(machine: Machine, rest: seq<byte>)

  /** Every frame the bytes hold, and where they leave the decoder. */
  function Drain(rules: Rules, m: Machine, rest: seq<byte>): (seq<Frame>, End)
    decreases |rest|
  {
    match NextFrame(rules, m, rest)
    case Refused => ([], Stopped)
    case Waiting(m', rest') => ([], Open(m', rest'))
    case Delivered(f, rest') =>
      var (frames, end) := Drain(rules, FRESH, rest');
      ([f] + frames, end)
  }

  /** A move that skips no empty line is an element read and placed. */
  lemma AdvanceReads(rules: Rules, m: Machine, rest: seq<byte>)
    requires m.stack == [] ==> rest != [CR] && !CrlfAt(rest, 0)
    ensures var r, a := ReadElement(rules, |m.stack|, m.inMemory, rest), Advance(rules, m, rest);
            && (r.More? ==> a == Stuck)
            && (r.Bad? ==> a == Fail)
            && (r.Got? ==> var p := Place(rules, m.(used := m.used + r.size), r.element);
                           && (p.Refusal? ==> a == Fail)
                           && (p.Owing? ==> a == On(p.machine, r.size))
                           && (p.Complete? ==>
                                 a == if p.used > rules.maxFrameBytes then Fail else Whole(p.frame, r.size)))
  {
    hide ReadElement, Place;
  }

  lemma NextReads(rules: Rules, m: Machine, rest: seq<byte>)
    requires m.stack == [] ==> rest != [CR] && !CrlfAt(rest, 0)
    ensures var r := ReadElement(rules, |m.stack|, m.inMemory, rest);
            && (r.More? ==> NextFrame(rules, m, rest) == Kept(rules, m, rest))
            && (r.Bad? ==> NextFrame(rules, m, rest) == Refused)
            && (r.Got? ==> var p := Place(rules, m.(used := m.used + r.size), r.element);
                           NextFrame(rules, m, rest) == Continue(rules, p, rest[r.size..]))
  {
    hide ReadElement, Place, Advance;
    AdvanceReads(rules, m, rest);
  }
}
