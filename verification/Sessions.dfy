/**
 A whole session: bytes in, bytes out. Decoding and serving together come to a function of the
 bytes the peer sent, however they were split.
 */
module Sessions {
  import opened Basics
  import opened Resp
  import opened RespMachine
  import opened RespChunks
  import opened RespDecoder
  import opened RespStream
  import opened Routing
  import opened Connections

  /** The requests a sequence of frames makes. */
  function Requests<S, C>(toAction: Frame -> Action<S, C>, frames: seq<Frame>): (r: seq<Action<S, C>>)
    ensures |r| == |frames|
  {
    seq(|frames|, i requires 0 <= i < |frames| => toAction(frames[i]))
  }

  lemma RequestsJoin<S, C>(toAction: Frame -> Action<S, C>, a: seq<Frame>, b: seq<Frame>)
    ensures Requests(toAction, a + b) == Requests(toAction, a) + Requests(toAction, b)
  {
  }

  /** Every frame the bytes hold served one at a time, and bytes that are no frame refused behind
      them unless a request ended the session first. */
  function Session<S, C>(router: Router<S, C>, node: Node, rules: Rules, toAction: Frame -> Action<S, C>,
                         refusal: Frame, w: World<S>, bytes: seq<byte>): World<S>
  {
    var (frames, end) := RespMachine.Drain(rules, FRESH, bytes);
    Settled(router, node, toAction, refusal, w, frames, end)
  }

  function Settled<S, C>(router: Router<S, C>, node: Node, toAction: Frame -> Action<S, C>, refusal: Frame,
                         w: World<S>, frames: seq<Frame>, end: End): World<S>
  {
    var (w', status) := ServeAll(router, node, w, Requests(toAction, frames));
    if status.Going? && end.Stopped? then Connections.Answered(w', w'.store, refusal) else w'
  }

  /** One read: its bytes fed, the frames they complete served, and a refusal behind them. */
  method ServeRead<S(!new), C(!new)>(c: Connection<S, C>, d: Decoder, chunk: seq<byte>,
                                     toAction: Frame -> Action<S, C>, refusal: Frame)
    returns (status: Status, ghost frames: seq<Frame>, ghost end: End)
    requires c.Valid() && c.slots == [] && c.batch == [] && d.Valid()
    modifies c, d, d.state
    ensures c.Valid() && c.slots == [] && c.batch == [] && c.out == [] && c.sent == WireAll(c.frames)
    ensures (frames, end) == RespMachine.Drain(d.rules, old(d.Where()), old(d.Rest()) + chunk)
    ensures status.Going? ==> d.Valid() && end == Open(d.Where(), d.Rest())
    ensures Faithful(c.router) ==>
              var (w, s) := ServeAll(c.router, c.node, old(c.Owed()), Requests(toAction, frames));
              var refused := s.Going? && end.Stopped?;
              && c.Owed() == (if refused then Connections.Answered(w, w.store, refusal) else w)
              && status == (if refused then HangUp else s)
  {
    hide Due, InOrder, Faithful, ServeAll, Resp.WireAll, Earned, Leaves, RespMachine.Drain, Requests;
    d.Feed(chunk);
    end := RespMachine.Drain(d.rules, d.Where(), d.Rest()).1;
    var whole, refused := TakeAll(d);
    frames := whole;
    status := c.Pass(Requests(toAction, whole), if refused then Some(refusal) else None);
  }

  /** Read by read: the store, the flag and the frames, and so the bytes written, are those of every
      frame read served in turn. Where a frame is allowed a byte, they depend on the bytes read and
      not on how they were split into reads, frames or chunks of commands. */
  method ServeStream<S(!new), C(!new)>(c: Connection<S, C>, rules: Rules, chunks: seq<seq<byte>>,
                                       toAction: Frame -> Action<S, C>, refusal: Frame)
    requires c.Valid() && c.slots == [] && c.batch == [] && c.out == []
    modifies c
    ensures c.Valid() && c.slots == [] && c.batch == [] && c.out == [] && c.sent == WireAll(c.frames)
    ensures c.Owed() == World(c.store, c.authenticated, c.frames, c.stopAsked)
    ensures Faithful(c.router) ==>
              var (frames, end) := FeedAll(rules, Open(FRESH, []), chunks);
              c.Owed() == Settled(c.router, c.node, toAction, refusal, old(c.Owed()), frames, end)
    ensures Faithful(c.router) && rules.maxFrameBytes >= 1 ==>
              c.Owed() == Session(c.router, c.node, rules, toAction, refusal, old(c.Owed()), Concat(chunks))
  {
    hide Due, InOrder, Faithful, ServeAll, Resp.WireAll, RespMachine.Drain, FeedAll, Concat, Requests, Settled, Ahead;
    var d := new Decoder(rules);
    var status, i := Going, 0;
    ghost var w0, end, done := c.Owed(), Open(FRESH, []), [];
    ghost var goal := FeedAll(rules, end, chunks);
    AheadStarts(rules, end, chunks);
    assert chunks[0..] == chunks && c.sent + [] == c.sent;
    NoRequests(c.router, c.node, w0, toAction);
    while i < |chunks| && status.Going?
      invariant 0 <= i <= |chunks| && fresh(d) && fresh(d.state) && d.rules == rules
      invariant c.Valid() && c.slots == [] && c.batch == [] && c.out == [] && c.sent == WireAll(c.frames)
      invariant status.Going? ==> d.Valid() && end == Open(d.Where(), d.Rest())
      invariant Ahead(rules, end, chunks[i..], done) == goal
      invariant Faithful(c.router) && status.Going? ==>
                  ServeAll(c.router, c.node, w0, Requests(toAction, done)) == (c.Owed(), Going)
      invariant Faithful(c.router) && status.HangUp? ==>
                  c.Owed() == Settled(c.router, c.node, toAction, refusal, w0, goal.0, goal.1)
    {
      AheadStep(rules, end, chunks[i..], done);
      assert chunks[i..][1..] == chunks[i + 1..];
      ghost var w := c.Owed();
      ghost var frames;
      status, frames, end := ServeRead(c, d, chunks[i], toAction, refusal);
      i := i + 1;
      if Faithful(c.router) {
        ServedOn(c.router, c.node, toAction, refusal, w0, w, done, frames, chunks[i..], rules, end);
      }
      done := done + frames;
    }
    if status.Going? {
      AheadEnds(rules, end, chunks[i..], done);
      SettledOpen(c.router, c.node, toAction, refusal, w0, done, end);
    }
    if rules.maxFrameBytes >= 1 {
      FreshRests(rules);
      ChunksAreWhole(rules, Open(FRESH, []), chunks);
      assert [] + Concat(chunks) == Concat(chunks);
    }
    DueNothing(c.router, c.store, c.frames);
  }

  lemma AheadStarts(rules: Rules, end: End, chunks: seq<seq<byte>>)
    ensures Ahead(rules, end, chunks, []) == FeedAll(rules, end, chunks)
  {
    hide FeedAll;
    assert [] + FeedAll(rules, end, chunks).0 == FeedAll(rules, end, chunks).0;
  }

  lemma NoRequests<S, C>(router: Router<S, C>, node: Node, w: World<S>, toAction: Frame -> Action<S, C>)
    ensures ServeAll(router, node, w, Requests(toAction, [])) == (w, Going)
  {
  }

  lemma SettledOpen<S, C>(router: Router<S, C>, node: Node, toAction: Frame -> Action<S, C>, refusal: Frame,
                          w: World<S>, frames: seq<Frame>, end: End)
    requires end.Open?
    ensures Settled(router, node, toAction, refusal, w, frames, end)
         == ServeAll(router, node, w, Requests(toAction, frames)).0
  {
    hide ServeAll, Requests;
  }

  /** One read's frames served behind those before them: the session goes on, or it is settled
      whatever is still to come. */
  lemma ServedOn<S, C>(router: Router<S, C>, node: Node, toAction: Frame -> Action<S, C>, refusal: Frame, w0: World<S>,
                       w: World<S>, done: seq<Frame>, frames: seq<Frame>, later: seq<seq<byte>>, rules: Rules, end: End)
    requires ServeAll(router, node, w0, Requests(toAction, done)) == (w, Going)
    ensures var (w', s) := ServeAll(router, node, w, Requests(toAction, frames));
            && ServeAll(router, node, w0, Requests(toAction, done + frames)) == (w', s)
            && var (all, last) := Ahead(rules, end, later, done + frames);
               && (s.HangUp? ==> Settled(router, node, toAction, refusal, w0, all, last) == w')
               && (s.Going? && end.Stopped? ==>
                     Settled(router, node, toAction, refusal, w0, all, last)
                     == Connections.Answered(w', w'.store, refusal))
  {
    hide ServeAll, FeedAll, Requests;
    var more := FeedAll(rules, end, later).0;
    RequestsJoin(toAction, done, frames);
    RequestsJoin(toAction, done + frames, more);
    ServeAllJoins(router, node, w0, Requests(toAction, done), Requests(toAction, frames));
    ServeAllJoins(router, node, w0, Requests(toAction, done + frames), Requests(toAction, more));
    if end.Stopped? {
      OnceStopped(rules, later);
      assert done + frames + [] == done + frames;
    }
  }
}
