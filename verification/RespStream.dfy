/**
 The decoder a connection holds: bytes fed in, frames taken out, the bytes of delivered frames
 dropped at batch boundaries.
 */
module RespStream {
  import opened Basics
  import opened Resp
  import opened RespMachine
  import opened RespChunks
  import opened RespLimits
  import opened RespDecoder

  class Decoder {
    const rules: Rules
    const state: Decoding
    var buf: seq<byte>
    /** Bytes fed and frames asked for since construction. */
    ghost var fed: nat
    ghost var calls: nat

    ghost predicate Valid()
      reads this, state
    {
      state.Valid(rules, buf) && fed == state.dropped + |buf| && state.waits <= calls
    }

    /** Where the decoder is in a frame. */
    ghost function Where(): Machine
      requires Valid()
      reads this, state
    {
      state.State()
    }

    /** The bytes not yet understood as elements. */
    ghost function Rest(): seq<byte>
      requires Valid()
      reads this, state
    {
      buf[state.scan..]
    }

    constructor (rules: Rules)
      ensures Valid() && this.rules == rules && fresh(state)
      ensures Where() == FRESH && Rest() == [] && fed == 0 && calls == 0
    {
      this.rules := rules;
      state := new Decoding();
      buf := [];
      fed, calls := 0, 0;
    }

    /** Drops the bytes of delivered frames and rebases every offset. */
    method Compact()
      requires Valid()
      modifies this`buf, state
      ensures Valid() && Where() == old(Where()) && Rest() == old(Rest())
      ensures |buf| == Where().used + |Rest()| && state.examined == old(state.examined)
    {
      hide MachineOk, Understood, LookedAt;
      var cut := state.frameStart;
      if cut == 0 {
        return;
      }
      state.ShiftBack(cut, rules, buf);
      buf := buf[cut..];
    }

    method Feed(bytes: seq<byte>)
      requires Valid()
      modifies this, state
      ensures Valid() && Where() == old(Where()) && Rest() == old(Rest()) + bytes
      ensures fed == old(fed) + |bytes| && calls == old(calls)
    {
      hide MachineOk, Understood, LookedAt;
      Compact();
      UnderstoodExtends(rules, state.inMemory, buf[state.scan..], state.scan, state.partial, bytes);
      assert (buf + bytes)[state.scan..] == buf[state.scan..] + bytes;
      buf := buf + bytes;
      fed := fed + |bytes|;
    }

    /** The next frame, if the bytes fed hold one; and however the bytes arrived, no more has been
        looked at than was fed, but for one byte each call. */
    method TryNext() returns (r: Reply<Frame>)
      requires Valid()
      modifies this, state
      ensures match NextFrame(rules, old(Where()), old(Rest()))
              case Refused => r == Malformed
              case Waiting(m, rest) => r == Nothing && Valid() && Where() == m && Rest() == rest
              case Delivered(f, rest) => r == Something(f) && Valid() && Where() == FRESH && Rest() == rest
      ensures fed == old(fed) && calls == old(calls) + 1
      ensures state.examined <= fed + calls
    {
      hide NextFrame, MachineOk, Understood, LookedAt;
      calls := calls + 1;
      r := state.Step(rules, buf);
      match r {
        case Malformed =>
        case Nothing => Compact();
        case Something(_) => state.FinishFrame(rules, buf);
      }
    }

    /** What the frame under way has used of the bytes fed, and what is still unread. */
    method Buffered() returns (n: nat)
      requires Valid()
      ensures n == Where().used + |Rest()|
    {
      hide MachineOk, Understood, LookedAt;
      n := |buf| - state.frameStart;
    }
  }

  /** Takes frames until the decoder wants more bytes or refuses. */
  method TakeAll(d: Decoder) returns (frames: seq<Frame>, refused: bool)
    requires d.Valid()
    modifies d, d.state
    ensures var drained := Drain(d.rules, old(d.Where()), old(d.Rest()));
            && frames == drained.0
            && refused == drained.1.Stopped?
            && (!refused ==> d.Valid() && drained.1 == Open(d.Where(), d.Rest()))
    ensures d.fed == old(d.fed) && d.calls == old(d.calls) + |frames| + 1
    ensures d.state.examined <= d.fed + d.calls
  {
    hide NextFrame;
    ghost var goal := Drain(d.rules, d.Where(), d.Rest());
    frames := [];
    while true
      invariant d.Valid() && d.fed == old(d.fed) && d.calls == old(d.calls) + |frames|
      invariant var drained := Drain(d.rules, d.Where(), d.Rest());
                goal.0 == frames + drained.0 && goal.1 == drained.1
      decreases |d.Rest()|
    {
      DrainStep(d.rules, d.Where(), d.Rest());
      var next := d.TryNext();
      match next {
        case Malformed =>
          assert frames + [] == frames;
          return frames, true;
        case Nothing =>
          assert frames + [] == frames;
          return frames, false;
        case Something(f) =>
          ghost var drained := Drain(d.rules, d.Where(), d.Rest());
          assert frames + ([f] + drained.0) == frames + [f] + drained.0;
          frames := frames + [f];
      }
    }
  }

  lemma DrainStep(rules: Rules, m: Machine, rest: seq<byte>)
    ensures var r, drained := NextFrame(rules, m, rest), Drain(rules, m, rest);
            && (r.Refused? ==> drained == ([], Stopped))
            && (r.Waiting? ==> drained == ([], Open(r.machine, r.rest)))
            && (r.Delivered? ==> var tail := Drain(rules, FRESH, r.rest); drained == ([r.frame] + tail.0, tail.1))
  {
    hide NextFrame;
  }

  /** A whole conversation with one decoder: whatever the chunks, the frames and the verdict are
      those of the bytes fed whole, and the bytes looked at are no more than the bytes fed, one
      for each frame and one for each chunk. */
  method Converse(rules: Rules, chunks: seq<seq<byte>>)
    returns (frames: seq<Frame>, refused: bool, ghost examined: nat)
    requires rules.maxFrameBytes >= 1
    ensures var whole := Drain(rules, FRESH, Concat(chunks));
            frames == whole.0 && refused == whole.1.Stopped?
    ensures examined <= |Concat(chunks)| + |frames| + |chunks|
  {
    hide Drain, FeedAll, Concat;
    var d := new Decoder(rules);
    frames, refused := [], false;
    ghost var end := Open(FRESH, []);
    ghost var goal := FeedAll(rules, end, chunks);
    assert frames + goal.0 == goal.0 && chunks[0..] == chunks;
    var i := 0;
    while i < |chunks| && !refused
      invariant 0 <= i <= |chunks| && fresh(d) && fresh(d.state) && d.rules == rules
      invariant refused <==> end.Stopped?
      invariant !refused ==> d.Valid() && end == Open(d.Where(), d.Rest())
      invariant Ahead(rules, end, chunks[i..], frames) == goal
      invariant d.fed + |Concat(chunks[i..])| == |Concat(chunks)| && d.calls == |frames| + i
      invariant d.state.examined <= d.fed + d.calls
    {
      AheadStep(rules, end, chunks[i..], frames);
      assert chunks[i..][1..] == chunks[i + 1..];
      d.Feed(chunks[i]);
      ghost var m, rest := d.Where(), d.Rest();
      var more;
      more, refused := TakeAll(d);
      frames := frames + more;
      end := Drain(rules, m, rest).1;
      i := i + 1;
    }
    examined := d.state.examined;
    FreshRests(rules);
    ChunksAreWhole(rules, Open(FRESH, []), chunks);
    assert [] + Concat(chunks) == Concat(chunks);
    AheadEnds(rules, end, chunks[i..], frames);
  }

  /** What a conversation comes to, with some of it had. */
  ghost function Ahead(rules: Rules, end: End, chunks: seq<seq<byte>>, frames: seq<Frame>): (seq<Frame>, End)
  {
    (frames + FeedAll(rules, end, chunks).0, FeedAll(rules, end, chunks).1)
  }

  lemma AheadStep(rules: Rules, end: End, chunks: seq<seq<byte>>, frames: seq<Frame>)
    requires chunks != [] && end.Open?
    ensures var (more, end') := Drain(rules, end.machine, end.rest + chunks[0]);
            Ahead(rules, end, chunks, frames) == Ahead(rules, end', chunks[1..], frames + more)
    ensures |Concat(chunks)| == |chunks[0]| + |Concat(chunks[1..])|
  {
    hide Drain;
    var (more, end') := Drain(rules, end.machine, end.rest + chunks[0]);
    var later := FeedAll(rules, end', chunks[1..]).0;
    assert frames + (more + later) == frames + more + later;
  }

  lemma AheadEnds(rules: Rules, end: End, chunks: seq<seq<byte>>, frames: seq<Frame>)
    requires chunks == [] || end.Stopped?
    ensures Ahead(rules, end, chunks, frames) == (frames, end)
  {
    if end.Stopped? {
      OnceStopped(rules, chunks);
    }
    assert frames + [] == frames;
  }

  /** One frame from the start of a slice, and the bytes it took. */
  method Parse(rules: Rules, buf: seq<byte>) returns (r: Reply<(Frame, nat)>)
    ensures match NextFrame(rules, FRESH, buf)
            case Refused => r == Malformed
            case Waiting(_, _) => r == Nothing
            case Delivered(f, rest) => r == Something((f, |buf| - |rest|))
  {
    hide NextFrame;
    var state := new Decoding();
    assert buf[0..] == buf;
    var step := state.Step(rules, buf);
    match step {
      case Malformed => return Malformed;
      case Nothing => return Nothing;
      case Something(f) => return Something((f, state.scan));
    }
  }
}
