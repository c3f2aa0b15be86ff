/**
 What a peer reads: for every kind of request, the bytes it is answered, in numbers. Everything
 before this says how answers come about; this says what they are.
 */
module Exchanges {
  import opened Basics
  import opened Decimals
  import opened Resp
  import opened RespMachine
  import opened RespLimits
  import opened RespRoundTrip
  import opened Spellings
  import opened Routing
  import opened Connections
  import opened Sessions

  const LINE_END: seq<byte> := [13, 10]

  // ---------- Bytes ----------

  function IntegerBytes(n: int): seq<byte>
  {
    [58] + Decimal(n) + LINE_END
  }

  function ErrorBytes(text: seq<byte>): seq<byte>
  {
    [45] + text + LINE_END
  }

  /** The bytes a reply is to be answered with. */
  function ReplyBytes(r: Reply): seq<byte>
  {
    match r
    case Ok => [43, 79, 75, 13, 10]
    case Status(text) => [43] + text + LINE_END
    case Found(None) => [36, 45, 49, 13, 10]
    case Found(Some(value)) => [36] + Decimal(|value|) + LINE_END + value + LINE_END
    case Removed(removed) => if removed then [58, 49, 13, 10] else [58, 48, 13, 10]
    case Count(n) => IntegerBytes(n)
    case ScanPage => ErrorBytes(UNRENDERABLE_TEXT)
    case Stats => ErrorBytes(UNRENDERABLE_TEXT)
    case Failure(text) => ErrorBytes(text)
  }

  function RepliesBytes(replies: seq<Reply>): seq<byte>
  {
    if replies == [] then [] else RepliesBytes(replies[..|replies| - 1]) + ReplyBytes(replies[|replies| - 1])
  }

  lemma SmallDecimals()
    ensures Decimal(0) == [48] && Decimal(1) == [49] && Decimal(-1) == [45, 49]
  {
  }

  lemma ReplyFrameBytes(r: Reply)
    ensures Wire(ReplyToFrame(r)) == ReplyBytes(r)
  {
    hide Decimal;
    SmallDecimals();
    var f := ReplyToFrame(r);
    assert Wire(f) == Own(f);
  }

  lemma SentMore(frames: seq<Frame>, f: Frame)
    ensures WireAll(frames + [f]) == WireAll(frames) + Wire(f)
  {
    hide Wire;
    WireAppends(frames, f);
  }

  // ---------- One command, and a pipeline of them ----------

  /** One command of an authenticated peer: the store is what the command makes it and the bytes sent
      are its reply's, with nothing else changed. */
  lemma CommandSends<S, C>(router: Router<S, C>, node: Node, w: World<S>, cmd: C)
    requires w.authenticated
    ensures var (store, reply) := router.apply(w.store, cmd);
            var (w', status) := ServeAll(router, node, w, [Dispatch(cmd)]);
            && status == Going && w'.store == store && w'.authenticated && w'.stopAsked == w.stopAsked
            && WireAll(w'.frames) == WireAll(w.frames) + ReplyBytes(reply)
  {
    hide ReplyToFrame, Wire, WireAll, ReplyBytes;
    var (store, reply) := router.apply(w.store, cmd);
    var w' := Answered(w, store, ReplyToFrame(reply));
    var actions: seq<Action<S, C>> := [Dispatch(cmd)];
    assert actions[1..] == [];
    assert ServeAll(router, node, w', actions[1..]) == (w', Going);
    SentMore(w.frames, ReplyToFrame(reply));
    ReplyFrameBytes(reply);
  }

  /** The same, reply by reply. */
  lemma CommandIsAnswered<S, C>(router: Router<S, C>, node: Node, w: World<S>, cmd: C)
    requires w.authenticated
    ensures var reply := router.apply(w.store, cmd).1;
            var before, sent := WireAll(w.frames), WireAll(ServeAll(router, node, w, [Dispatch(cmd)]).0.frames);
            && (reply == Found(None) ==> sent == before + [36, 45, 49, 13, 10])
            && (reply.Found? && reply.value.Some? ==>
                  var v := reply.value.value;
                  sent == before + ([36] + Decimal(|v|) + [13, 10] + v + [13, 10]))
            && (reply == Removed(true) ==> sent == before + [58, 49, 13, 10])
            && (reply == Removed(false) ==> sent == before + [58, 48, 13, 10])
            && (reply.Count? ==> sent == before + ([58] + Decimal(reply.n) + [13, 10]))
            && (reply == Reply.Ok ==> sent == before + [43, 79, 75, 13, 10])
            && (reply.Status? ==> sent == before + ([43] + reply.text + [13, 10]))
            && (reply.Failure? ==> sent == before + ([45] + reply.text + [13, 10]))
            && (reply.ScanPage? || reply.Stats? ==> sent == before + ([45] + UNRENDERABLE_TEXT + [13, 10]))
  {
    hide ServeAll, WireAll, Decimal;
    CommandSends(router, node, w, cmd);
  }

  function Dispatches<S, C>(cmds: seq<C>): (r: seq<Action<S, C>>)
    ensures |r| == |cmds|
  {
    seq(|cmds|, i requires 0 <= i < |cmds| => Action<S, C>.Dispatch(cmds[i]))
  }

  /** A pipeline of commands is answered with their replies' bytes, one after another in order. */
  lemma {:induction false} PipelineSends<S, C>(router: Router<S, C>, node: Node, w: World<S>, cmds: seq<C>)
    requires w.authenticated
    ensures var (store, replies) := ApplyAll(router, w.store, cmds);
            var (w', status) := ServeAll(router, node, w, Dispatches(cmds));
            && status == Going && w'.store == store && w'.authenticated && w'.stopAsked == w.stopAsked
            && WireAll(w'.frames) == WireAll(w.frames) + RepliesBytes(replies)
    decreases |cmds|
  {
    hide Wire, WireAll, ReplyBytes, Serve, Gated;
    if cmds == [] {
      assert WireAll(w.frames) + [] == WireAll(w.frames);
    } else {
      var n := |cmds| - 1;
      PipelineSends(router, node, w, cmds[..n]);
      var front, last := Dispatches<S, C>(cmds[..n]), [Action<S, C>.Dispatch(cmds[n])];
      assert Dispatches<S, C>(cmds) == front + last;
      ServeAllJoins(router, node, w, front, last);
      CommandSends(router, node, ServeAll(router, node, w, front).0, cmds[n]);
    }
  }

  /** Bytes in, bytes out: requests that are commands, as they are written on the wire, are answered
      with the bytes of their replies in order, with the commands run in order. */
  lemma SessionSends<S, C>(router: Router<S, C>, node: Node, rules: Rules, toAction: Frame -> Action<S, C>,
                           refusal: Frame, w: World<S>, requests: seq<Frame>, cmds: seq<C>)
    requires w.authenticated && |requests| == |cmds|
    requires forall i :: 0 <= i < |requests| ==> Fits(rules, requests[i]) && toAction(requests[i]) == Dispatch(cmds[i])
    ensures var (store, replies) := ApplyAll(router, w.store, cmds);
            var w' := Session(router, node, rules, toAction, refusal, w, WireAll(requests));
            w'.store == store && WireAll(w'.frames) == WireAll(w.frames) + RepliesBytes(replies)
  {
    hide Fits, Drain, ServeAll, WireAll, RepliesBytes, ApplyAll;
    ConversationRoundTrip(rules, requests);
    assert Requests(toAction, requests) == Dispatches<S, C>(cmds);
    PipelineSends(router, node, w, cmds);
  }

  // ---------- Telling replies apart ----------

  /** Replies a peer can tell apart: values, absences, counts, and errors of one line. */
  predicate Telling(r: Reply)
  {
    r.Found? || r.Count? || (r.Failure? && NoLineEnd(r.text))
  }

  lemma LinesApart(kind: byte, a: seq<byte>, x: seq<byte>, b: seq<byte>, y: seq<byte>)
    requires NoLineEnd(a) && NoLineEnd(b) && [kind] + a + LINE_END + x == [kind] + b + LINE_END + y
    ensures a == b && x == y
  {
    hide NoLineEnd, PairFree, FirstCrlf;
    PairFreeIs(a);
    PairFreeIs(b);
    LineEnds(kind, a, x);
    LineEnds(kind, b, y);
    var s := Line(kind, a) + x;
    assert s == Line(kind, b) + y;
    assert s[|a| + 3..] == x;
    assert s[|b| + 3..] == y;
  }

  lemma DecimalsApart(m: int, n: int)
    ensures NoLineEnd(Decimal(m)) && (Decimal(m) == Decimal(n) ==> m == n)
  {
    hide Decimal, Number;
    DecimalWrites(m);
    DecimalWrites(n);
    WrittenHasNoLineEnd(Decimal(m), m);
  }

  /** Whatever follows them, two such replies whose bytes agree are the same reply. */
  lemma RepliesApart(a: Reply, x: seq<byte>, b: Reply, y: seq<byte>)
    requires Telling(a) && Telling(b) && ReplyBytes(a) + x == ReplyBytes(b) + y
    ensures a == b && x == y
  {
    hide NoLineEnd, Decimal;
    assert ReplyBytes(a)[0] == (ReplyBytes(a) + x)[0] == ReplyBytes(b)[0];
    if a.Found? {
      FoundApart(a.value, x, b.value, y);
    } else if a.Count? {
      DecimalsApart(a.n, b.n);
      DecimalsApart(b.n, a.n);
      LinesApart(58, Decimal(a.n), x, Decimal(b.n), y);
    } else {
      LinesApart(45, a.text, x, b.text, y);
    }
  }

  /** The length line of a value, -1 for its absence. */
  function LengthOf(v: Option<seq<byte>>): int
  {
    if v.Some? then |v.value| else -1
  }

  lemma FoundIs(v: Option<seq<byte>>, x: seq<byte>)
    ensures ReplyBytes(Found(v)) + x
         == [36] + Decimal(LengthOf(v)) + LINE_END + (if v.Some? then v.value + LINE_END + x else x)
  {
    hide Decimal;
    SmallDecimals();
  }

  lemma FoundApart(v: Option<seq<byte>>, x: seq<byte>, u: Option<seq<byte>>, y: seq<byte>)
    requires ReplyBytes(Found(v)) + x == ReplyBytes(Found(u)) + y
    ensures v == u && x == y
  {
    hide NoLineEnd, Decimal, ReplyBytes;
    FoundIs(v, x);
    FoundIs(u, y);
    var m, n := LengthOf(v), LengthOf(u);
    DecimalsApart(m, n);
    DecimalsApart(n, m);
    var p := if v.Some? then v.value + LINE_END + x else x;
    var q := if u.Some? then u.value + LINE_END + y else y;
    LinesApart(36, Decimal(m), p, Decimal(n), q);
    if v.Some? {
      assert v.value == p[..|v.value|] && u.value == q[..|u.value|];
      assert x == p[|v.value| + 2..] && y == q[|u.value| + 2..];
    }
  }

  // ---------- Split requests ----------

  /** One action of a connection whose gate lets it through, and its frame. */
  lemma OneServed<S, C>(router: Router<S, C>, node: Node, w: World<S>, a: Action<S, C>)
    requires w.authenticated
    ensures ServeAll(router, node, w, [a]) == Serve(router, w, a)
  {
    hide Serve;
    var (w', status) := Serve(router, w, a);
    assert [a][1..] == [];
    assert ServeAll(router, node, w', [a][1..]) == (w', Going);
  }

  lemma {:induction false} FramesBytes(replies: seq<Reply>)
    ensures WireAll(Frames(replies)) == RepliesBytes(replies)
    decreases |replies|
  {
    hide ReplyToFrame, Wire, ReplyBytes, WireAll;
    if replies == [] {
      NothingSent();
      assert Frames(replies) == [];
    } else {
      var n := |replies| - 1;
      FramesBytes(replies[..n]);
      assert Frames(replies) == Frames(replies[..n]) + [ReplyToFrame(replies[n])];
      SentMore(Frames(replies[..n]), ReplyToFrame(replies[n]));
      ReplyFrameBytes(replies[n]);
    }
  }

  lemma NothingSent()
    ensures WireAll([]) == []
  {
  }

  lemma ArrayBytes(elements: seq<Frame>)
    ensures Wire(Array(elements)) == [42] + Decimal(|elements|) + LINE_END + WireAll(elements)
  {
    hide WireAll, Decimal;
  }

  /** A multi-key read, of any number of keys: an array of every value or absence in order. */
  lemma ReadManySends<S, C>(router: Router<S, C>, node: Node, w: World<S>, cmds: seq<C>)
    requires w.authenticated
    requires forall i :: 0 <= i < |cmds| ==> ApplyAll(router, w.store, cmds).1[i].Found?
    ensures var (after, replies) := ApplyAll(router, w.store, cmds);
            var (w', status) := ServeAll(router, node, w, [Split(cmds, AsArray)]);
            && status == Going && w'.store == after
            && WireAll(w'.frames)
            == WireAll(w.frames) + ([42] + Decimal(|cmds|) + [13, 10] + RepliesBytes(replies))
  {
    hide ApplyAll, ArrayFrom, Wire, WireAll, Frames, Decimal, ServeAll, RepliesBytes;
    var (after, replies) := ApplyAll(router, w.store, cmds);
    OneServed(router, node, w, Split(cmds, AsArray));
    ArrayOfFound(router, w.store, cmds, []);
    assert [] + Frames(replies) == Frames(replies);
    FramesCount(replies);
    ArrayBytes(Frames(replies));
    FramesBytes(replies);
    SentMore(w.frames, Array(Frames(replies)));
  }

  lemma FramesCount(replies: seq<Reply>)
    ensures |Frames(replies)| == |replies|
  {
  }

  /** A multi-key read with a shard that fails: that shard's error and nothing else, once the slice of
      128 the failure is in has run, and nothing behind it has. */
  lemma ReadManyFails<S, C>(router: Router<S, C>, node: Node, w: World<S>, cmds: seq<C>, k: nat)
    requires w.authenticated && k < |cmds|
    requires forall i :: 0 <= i < k ==> ApplyAll(router, w.store, cmds).1[i].Found?
    requires ApplyAll(router, w.store, cmds).1[k].Failure?
    ensures var end := if (k / 128 + 1) * 128 < |cmds| then (k / 128 + 1) * 128 else |cmds|;
            var (w', status) := ServeAll(router, node, w, [Split(cmds, AsArray)]);
            && status == Going && w'.store == ApplyAll(router, w.store, cmds[..end]).0
            && WireAll(w'.frames)
            == WireAll(w.frames) + ([45] + ApplyAll(router, w.store, cmds).1[k].text + [13, 10])
  {
    hide ApplyAll, ArrayFrom, Wire, WireAll, ServeAll;
    var replies := ApplyAll(router, w.store, cmds).1;
    assert forall i :: 0 <= i < k ==> replies[..k][i] == replies[i];
    OneServed(router, node, w, Split(cmds, AsArray));
    ArrayOfOther(router, w.store, cmds, [], k);
    SentMore(w.frames, Error(replies[k].text));
    ReplyFrameBytes(replies[k]);
  }

  // ---------- A chunk whose batch comes back short ----------

  lemma {:induction false} SlotFrameAt(slots: seq<Slot>, replies: seq<Reply>, k: nat)
    requires k < |slots|
    ensures SlotFrames(slots, replies)[k] == SlotFrame(slots[k], replies)
    decreases |slots|
  {
    hide SlotFrame;
    var n := |slots| - 1;
    if k < n {
      SlotFrameAt(slots[..n], replies, k);
    }
  }

  /** What a slot of a chunk is answered, whatever the router answered: its own reply's bytes, an
      error where its reply is missing, and for a run of replies one array, the error of the first
      that failed, or an error if the run is not whole. */
  lemma SlotIsAnswered(slots: seq<Slot>, replies: seq<Reply>, k: nat)
    requires k < |slots|
    ensures var slot, sent := slots[k], Wire(SlotFrames(slots, replies)[k]);
            && (slot.Pending? && slot.index < |replies| ==> sent == ReplyBytes(replies[slot.index]))
            && (slot.Pending? && slot.index >= |replies| ==> sent == ErrorBytes(UNAVAILABLE_TEXT))
            && (slot.Spanned? && slot.first + slot.len > |replies| ==> sent == ErrorBytes(UNRENDERABLE_TEXT))
            && (slot.Spanned? && slot.first + slot.len <= |replies| ==>
                  var run := replies[slot.first..slot.first + slot.len];
                  (forall i :: 0 <= i < |run| ==> run[i].Found?) ==>
                    sent == [42] + Decimal(|run|) + [13, 10] + RepliesBytes(run))
  {
    hide ReplyToFrame, Wire, WireAll, SlotFrames, FoldArray, RepliesBytes, Decimal, ReplyBytes;
    SlotFrameAt(slots, replies, k);
    var slot := slots[k];
    match slot {
      case Ready(_) =>
      case Pending(index) =>
        ReplyFrameBytes(if index < |replies| then replies[index] else Unavailable());
        MissingShardIsAnError();
      case Spanned(first, len) =>
        UnrenderableBytes();
        if first + len <= |replies| {
          var run := replies[first..first + len];
          if AllFound(run) {
            FoldOfFound(run);
            FramesCount(run);
            ArrayBytes(Frames(run));
            FramesBytes(run);
          }
        }
    }
  }

  /** A command whose shard is not there to answer is answered an error. */
  lemma MissingShardIsAnError()
    ensures ReplyBytes(Unavailable()) == [45] + UNAVAILABLE_TEXT + [13, 10]
  {
  }

  lemma UnrenderableBytes()
    ensures Wire(Unrenderable()) == ErrorBytes(UNRENDERABLE_TEXT)
  {
    assert Wire(Unrenderable()) == Own(Unrenderable());
  }

  /** A run with a reply that failed behind values: that failure's error. */
  lemma SpanFails(slots: seq<Slot>, replies: seq<Reply>, k: nat, run: seq<Reply>, j: nat)
    requires k < |slots| && slots[k].Spanned? && slots[k].first + slots[k].len <= |replies|
    requires run == replies[slots[k].first..slots[k].first + slots[k].len]
    requires j < |run| && run[j].Failure? && forall i :: 0 <= i < j ==> run[i].Found?
    ensures Wire(SlotFrames(slots, replies)[k]) == ErrorBytes(run[j].text)
  {
    hide ReplyToFrame, Wire, SlotFrames, FoldArray, ReplyBytes, ErrorBytes, Unavailable, Unrenderable;
    SlotFrameAt(slots, replies, k);
    FoldOfFailure(run, j);
    ReplyFrameBytes(run[j]);
    FailureBytes(run[j]);
  }

  lemma FoldOfFailure(replies: seq<Reply>, j: nat)
    requires j < |replies| && replies[j].Failure? && forall i :: 0 <= i < j ==> replies[i].Found?
    ensures FoldArray(replies, |replies|) == Instead(ReplyToFrame(replies[j]))
  {
    hide ReplyToFrame, Gathered;
    GatheredOther(replies, j);
  }

  lemma FailureBytes(r: Reply)
    requires r.Failure?
    ensures ReplyBytes(r) == ErrorBytes(r.text)
  {
  }

  // ---------- Counts ----------

  /** Which of the replies say a key was removed. */
  function Gone(replies: seq<Reply>): set<int>
  {
    set i | 0 <= i < |replies| && replies[i] == Removed(true)
  }

  lemma {:induction false} TotalIsHowMany(replies: seq<Reply>)
    requires forall i :: 0 <= i < |replies| ==> replies[i].Removed?
    ensures AllCounts(replies) && PlainTotal(replies) == |Gone(replies)|
    decreases |replies|
  {
    if replies != [] {
      var n := |replies| - 1;
      var front := replies[..n];
      TotalIsHowMany(front);
      assert Gone(replies) == Gone(front) + (if replies[n] == Removed(true) then {n} else {});
    }
  }

  /** A multi-key removal answers how many of its keys were there, every command run. */
  lemma RemoveManySends<S, C>(router: Router<S, C>, node: Node, w: World<S>, cmds: seq<C>)
    requires w.authenticated && |cmds| <= 0x7FFF_FFFF_FFFF_FFFF
    requires forall i :: 0 <= i < |cmds| ==> ApplyAll(router, w.store, cmds).1[i].Removed?
    ensures var (after, replies) := ApplyAll(router, w.store, cmds);
            var (w', status) := ServeAll(router, node, w, [Split(cmds, Sum)]);
            && status == Going && w'.store == after
            && WireAll(w'.frames) == WireAll(w.frames) + ([58] + Decimal(|Gone(replies)|) + [13, 10])
  {
    hide ApplyAll, SumFrom, Wire, WireAll, Decimal, ServeAll, Gone, Total, PlainTotal;
    var (after, replies) := ApplyAll(router, w.store, cmds);
    OneServed(router, node, w, Split(cmds, Sum));
    SumMeans(router, w.store, cmds);
    TotalIsHowMany(replies);
    TotalIsTheSum(replies);
    GoneFits(replies);
    SentMore(w.frames, Integer(Total(replies, 0)));
    ReplyFrameBytes(Count(Total(replies, 0)));
  }

  lemma {:induction false} GoneFits(replies: seq<Reply>)
    ensures |Gone(replies)| <= |replies|
    decreases |replies|
  {
    if replies != [] {
      var n := |replies| - 1;
      var front := replies[..n];
      GoneFits(front);
      assert Gone(replies) == Gone(front) + (if replies[n] == Removed(true) then {n} else {});
    }
  }

  /** A removal that fails at a key answers that error, with nothing behind it run. */
  lemma RemoveManyFails<S, C>(router: Router<S, C>, node: Node, w: World<S>, cmds: seq<C>, k: nat)
    requires w.authenticated && k < |cmds|
    requires forall i :: 0 <= i < k ==> ApplyAll(router, w.store, cmds).1[i].Removed?
    requires ApplyAll(router, w.store, cmds).1[k].Failure?
    ensures var (w', status) := ServeAll(router, node, w, [Split(cmds, Sum)]);
            && status == Going && w'.store == ApplyAll(router, w.store, cmds[..k + 1]).0
            && WireAll(w'.frames)
            == WireAll(w.frames) + ([45] + ApplyAll(router, w.store, cmds).1[k].text + [13, 10])
  {
    hide ApplyAll, SumFrom, Wire, WireAll, ServeAll;
    var replies := ApplyAll(router, w.store, cmds).1;
    assert forall i :: 0 <= i < k ==> replies[..k][i] == replies[i];
    OneServed(router, node, w, Split(cmds, Sum));
    SumMeans(router, w.store, cmds);
    SentMore(w.frames, Error(replies[k].text));
    ReplyFrameBytes(replies[k]);
  }

  // ---------- The gate ----------

  /** The world after one more frame. */
  function Told<S>(w: World<S>, f: Frame): World<S>
  {
    World(w.store, w.authenticated, w.frames + [f], w.stopAsked)
  }

  /** What a peer that has not authenticated is answered, and what becomes of everything behind: a
      right attempt lets it in, a wrong one changes nothing, goodbye and a refusal pass, and anything
      else is turned away with the connection kept. */
  lemma StrangerIsAnswered<S, C>(router: Router<S, C>, node: Node, w: World<S>, a: Action<S, C>,
                                 later: seq<Action<S, C>>)
    requires !w.authenticated
    ensures var served := ServeAll(router, node, w, [a] + later);
            && (a.Authenticate? && a.ok ==>
                  served == ServeAll(router, node, World(w.store, true, w.frames + [a.frame], w.stopAsked), later))
            && (a.Authenticate? && !a.ok ==> served == ServeAll(router, node, Told(w, a.frame), later))
            && (a.ReplyThenClose? ==> served == (Told(w, a.frame), HangUp))
            && (a.Refuse? ==> served == ServeAll(router, node, Told(w, a.frame), later))
            && (a.Hello? ==> served == ServeAll(router, node, Told(w, node.noAuthHello), later))
            && (a.Dispatch? || a.Split? || a.Alone? || a.Answer? || a.Shutdown? ==>
                  served == ServeAll(router, node, Told(w, node.noAuth), later))
  {
    hide FanOutAnswer, ReplyToFrame;
    assert ([a] + later)[1..] == later;
  }

  /** What an authenticated peer is answered: it stays so whatever it tries, a goodbye hangs up, and a
      stop hangs up with no frame at all. */
  lemma MemberIsAnswered<S, C>(router: Router<S, C>, node: Node, w: World<S>, a: Action<S, C>,
                               later: seq<Action<S, C>>)
    requires w.authenticated
    ensures var served := ServeAll(router, node, w, [a] + later);
            && (a.Answer? || a.Hello? || a.Refuse? || a.Authenticate? ==>
                  served == ServeAll(router, node, Told(w, a.frame), later))
            && (a.ReplyThenClose? ==> served == (Told(w, a.frame), HangUp))
            && (a.Shutdown? ==> served == (World(w.store, true, w.frames, true), HangUp))
            && (a.Alone? ==>
                  var (store, f) := a.run(w.store);
                  served == ServeAll(router, node, World(store, true, w.frames + [f], w.stopAsked), later))
  {
    hide FanOutAnswer, ReplyToFrame;
    assert ([a] + later)[1..] == later;
  }

  // ---------- Bytes that are no frame ----------

  /** Whatever the bytes hold before, bytes that cannot go on are refused behind every frame earned,
      unless a request left first; bytes that only stop short are not. */
  lemma SessionRefuses<S, C>(router: Router<S, C>, node: Node, rules: Rules, toAction: Frame -> Action<S, C>,
                             refusal: Frame, w: World<S>, requests: seq<Frame>, bytes: seq<byte>)
    requires forall i :: 0 <= i < |requests| ==> Fits(rules, requests[i])
    requires !NextFrame(rules, FRESH, bytes).Delivered?
    ensures var (w', status) := ServeAll(router, node, w, Requests(toAction, requests));
            var refused := status.Going? && NextFrame(rules, FRESH, bytes).Refused?;
            Session(router, node, rules, toAction, refusal, w, WireAll(requests) + bytes)
            == if refused then Told(w', refusal) else w'
  {
    hide Fits, NextFrame, ServeAll, WireAll, Requests;
    DrainsThrough(rules, requests, bytes);
  }

  lemma {:induction false} DrainsThrough(rules: Rules, frames: seq<Frame>, bytes: seq<byte>)
    requires forall i :: 0 <= i < |frames| ==> Fits(rules, frames[i])
    requires !NextFrame(rules, FRESH, bytes).Delivered?
    ensures var (drained, end) := Drain(rules, FRESH, WireAll(frames) + bytes);
            drained == frames && (end.Stopped? <==> NextFrame(rules, FRESH, bytes).Refused?)
    decreases |frames|
  {
    hide Fits, NextFrame, Wire;
    if frames == [] {
      assert WireAll(frames) + bytes == bytes;
    } else {
      var later := WireAll(frames[1..]) + bytes;
      assert WireAll(frames) + bytes == Wire(frames[0]) + later;
      RoundTrip(rules, frames[0], later);
      DrainsThrough(rules, frames[1..], bytes);
      assert [frames[0]] + frames[1..] == frames;
    }
  }
}
