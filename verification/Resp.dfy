/**
 RESP2 frames and their wire form: a recursive denotation, and the encoder that walks nesting
 with an explicit stack.
 */
module Resp {
  import opened Basics
  import opened Decimals

  const CR: byte := 13
  const LF: byte := 10
  const PLUS: byte := 43
  const DASH: byte := 45
  const COLON: byte := 58
  const DOLLAR: byte := 36
  const ASTERISK: byte := 42

  datatype Frame =
    | Simple(text: seq<byte>)
    | Error(text: seq<byte>)
    | Integer(value: int)
    | Bulk(payload: seq<byte>)
    | Null
    | Array(elements: seq<Frame>)

  const CRLF: seq<byte> := [CR, LF]

  function Line(kind: byte, field: seq<byte>): seq<byte>
  {
    [kind] + field + CRLF
  }

  /** What a frame puts on the wire before its elements. */
  function Own(f: Frame): seq<byte>
  {
    match f
    case Simple(text) => Line(PLUS, text)
    case Error(text) => Line(DASH, text)
    case Integer(value) => Line(COLON, Decimal(value))
    case Bulk(payload) => Line(DOLLAR, Decimal(|payload|)) + payload + CRLF
    case Null => Line(DOLLAR, Decimal(-1))
    case Array(elements) => Line(ASTERISK, Decimal(|elements|))
  }

  /** A frame's wire form: its own bytes, then its elements' in order. */
  function Wire(f: Frame): seq<byte>
    decreases f
  {
    Own(f) + if f.Array? then WireAll(f.elements) else []
  }

  function WireAll(frames: seq<Frame>): seq<byte>
    decreases frames
  {
    if frames == [] then [] else Wire(frames[0]) + WireAll(frames[1..])
  }

  lemma {:induction false} WireAppends(frames: seq<Frame>, f: Frame)
    ensures WireAll(frames + [f]) == WireAll(frames) + Wire(f)
    decreases |frames|
  {
    hide Wire;
    if frames == [] {
      assert frames + [f] == [f] && [f][1..] == [];
    } else {
      assert (frames + [f])[1..] == frames[1..] + [f];
      WireAppends(frames[1..], f);
    }
  }

  // ---------- The encoder ----------

  /** How many frames a frame is made of. */
  function Nodes(f: Frame): nat
    decreases f
  {
    1 + if f.Array? then NodesAll(f.elements) else 0
  }

  function NodesAll(frames: seq<Frame>): nat
    decreases frames
  {
    if frames == [] then 0 else Nodes(frames[0]) + NodesAll(frames[1..])
  }

  function Reversed(frames: seq<Frame>): (r: seq<Frame>)
    ensures |r| == |frames|
  {
    if frames == [] then [] else Reversed(frames[1..]) + [frames[0]]
  }

  /** The wire form of a stack, top first. */
  ghost function WireStack(stack: seq<Frame>): seq<byte>
  {
    if stack == [] then [] else Wire(stack[|stack| - 1]) + WireStack(stack[..|stack| - 1])
  }

  ghost function NodesStack(stack: seq<Frame>): nat
  {
    if stack == [] then 0 else Nodes(stack[|stack| - 1]) + NodesStack(stack[..|stack| - 1])
  }

  /** Elements pushed in reverse come off the stack in order. */
  lemma {:induction false} PushReversed(stack: seq<Frame>, frames: seq<Frame>)
    ensures WireStack(stack + Reversed(frames)) == WireAll(frames) + WireStack(stack)
    ensures NodesStack(stack + Reversed(frames)) == NodesAll(frames) + NodesStack(stack)
    decreases |frames|
  {
    hide Wire, Nodes;
    var pushed := stack + Reversed(frames);
    if frames == [] {
      assert pushed == stack;
      assert [] + WireStack(stack) == WireStack(stack);
    } else {
      assert pushed[..|pushed| - 1] == stack + Reversed(frames[1..]);
      PushReversed(stack, frames[1..]);
      var first, rest := Wire(frames[0]), WireAll(frames[1..]);
      assert first + (rest + WireStack(stack)) == first + rest + WireStack(stack);
    }
  }

  method PutLine(out: seq<byte>, kind: byte, field: seq<byte>) returns (out': seq<byte>)
    ensures out' == out + Line(kind, field)
  {
    out' := out + [kind];
    out' := out' + field;
    out' := out' + CRLF;
    assert out + [kind] + field + CRLF == out + ([kind] + field + CRLF);
  }

  method EncodeOne(frame: Frame, out: seq<byte>, pending: seq<Frame>)
    returns (out': seq<byte>, pending': seq<Frame>)
    ensures out' == out + Own(frame)
    ensures pending' == pending + if frame.Array? then Reversed(frame.elements) else []
  {
    hide Line, Decimal, Reversed;
    out', pending' := out, pending;
    match frame {
      case Simple(text) => out' := PutLine(out, PLUS, text);
      case Error(text) => out' := PutLine(out, DASH, text);
      case Integer(value) => out' := PutLine(out, COLON, Decimal(value));
      case Bulk(payload) =>
        out' := PutLine(out, DOLLAR, Decimal(|payload|));
        out' := out' + payload;
        out' := out' + CRLF;
        Regroup(out, Line(DOLLAR, Decimal(|payload|)), payload, CRLF);
      case Null =>
        NullLine();
        out' := out' + [DOLLAR, MINUS, 49, CR, LF];
      case Array(elements) =>
        out' := PutLine(out, ASTERISK, Decimal(|elements|));
        pending' := pending' + Reversed(elements);
    }
  }

  lemma Regroup(a: seq<byte>, b: seq<byte>, c: seq<byte>, d: seq<byte>)
    ensures a + b + c + d == a + (b + c + d)
  {
  }

  lemma NullLine()
    ensures Line(DOLLAR, Decimal(-1)) == [DOLLAR, MINUS, 49, CR, LF]
  {
  }

  /** The stack walk writes exactly the recursive wire form, however deep the frame. */
  method Encode(frame: Frame, out: seq<byte>) returns (out': seq<byte>)
    ensures out' == out + Wire(frame)
  {
    hide Own, Reversed, Wire, Nodes;
    var pending := [frame];
    out' := out;
    OneOnStack(frame);
    while pending != []
      invariant out' + WireStack(pending) == out + Wire(frame)
      decreases NodesStack(pending)
    {
      var top := pending[|pending| - 1];
      pending := pending[..|pending| - 1];
      PushReversed(pending, if top.Array? then top.elements else []);
      WireIs(top);
      out', pending := EncodeOne(top, out', pending);
    }
  }

  lemma OneOnStack(frame: Frame)
    ensures WireStack([frame]) == Wire(frame)
  {
    assert [frame][..0] == [];
  }

  lemma WireIs(f: Frame)
    ensures Wire(f) == Own(f) + WireAll(if f.Array? then f.elements else [])
    ensures Nodes(f) == 1 + NodesAll(if f.Array? then f.elements else [])
    ensures !f.Array? ==> Reversed(if f.Array? then f.elements else []) == []
  {
  }
}
