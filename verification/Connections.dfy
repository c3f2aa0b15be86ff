/**
 A connection's drain: requests gathered into chunks, their commands dispatched together, and the
 replies spliced back into request order. It is a fast form of serving requests one at a time.
 */
module Connections {
  import opened Basics
  import opened Resp
  import opened Routing

  const REPLY_HIGH_WATER: nat := 0x4_0000

  /** What a request asks for. `Alone` is a request answered by a walk or a broadcast of its own. */
  datatype Action<!S, !C> =
    | Dispatch(cmd: C)
    | Split(cmds: seq<C>, fold: Fold)
    | Alone(run: S -> (S, Frame))
    | Answer(frame: Frame)
    | Authenticate(ok: bool, frame: Frame)
    | Hello(frame: Frame)
    | Refuse(frame: Frame)
    | ReplyThenClose(frame: Frame)
    | Shutdown

  /** What a node tells a peer that has not authenticated: in general, and for a handshake. */
  datatype Node = Node(noAuth: Frame, noAuthHello: Frame)

  /** The gate in front of every request: until the peer has authenticated, few actions pass. */
  function Gated<S, C>(node: Node, a: Action<S, C>, authenticated: bool): Action<S, C>
  {
    if authenticated then a
    else
      match a
      case Authenticate(_, _) => a
      case Hello(_) => Answer(node.noAuthHello)
      case ReplyThenClose(_) => a
      case Refuse(_) => a
      case _ => Answer(node.noAuth)
  }

  /** Until it authenticates, a peer gets nothing through that touches the store. */
  lemma GateHolds<S, C>(node: Node, a: Action<S, C>)
    ensures var r := Gated(node, a, false);
            (r.Authenticate? || r.Answer? || r.Refuse? || r.ReplyThenClose?) && (r.Authenticate? ==> r == a)
  {
  }

  // ---------- One request at a time ----------

  datatype Status = Going | HangUp

  /** The store, the connection's flag, the frames answered, and whether a stop was asked for. */
  datatype World<S> = World(store: S, authenticated: bool, frames: seq<Frame>, stopAsked: bool)

  function Answered<S>(w: World<S>, store: S, frame: Frame): World<S>
  {
    w.(store := store, frames := w.frames + [frame])
  }

  /** A gated request served on its own. */
  function Serve<S, C>(router: Router<S, C>, w: World<S>, a: Action<S, C>): (World<S>, Status)
  {
    match a
    case Dispatch(cmd) =>
      var (store, reply) := router.apply(w.store, cmd);
      (Answered(w, store, ReplyToFrame(reply)), Going)
    case Split(cmds, fold) =>
      var (store, frame) := FanOutAnswer(router, w.store, cmds, fold);
      (Answered(w, store, frame), Going)
    case Alone(run) =>
      var (store, frame) := run(w.store);
      (Answered(w, store, frame), Going)
    case Answer(frame) => (Answered(w, w.store, frame), Going)
    case Hello(frame) => (Answered(w, w.store, frame), Going)
    case Refuse(frame) => (Answered(w, w.store, frame), Going)
    case Authenticate(ok, frame) =>
      (Answered(w.(authenticated := w.authenticated || ok), w.store, frame), Going)
    case ReplyThenClose(frame) => (Answered(w, w.store, frame), HangUp)
    case Shutdown => (w.(stopAsked := true), HangUp)
  }

  /** Requests one at a time until one hangs up. */
  function ServeAll<S, C>(router: Router<S, C>, node: Node, w: World<S>, actions: seq<Action<S, C>>): (World<S>, Status)
    decreases |actions|
  {
    if actions == [] then (w, Going)
    else
      var (w', status) := Serve(router, w, Gated(node, actions[0], w.authenticated));
      if status.HangUp? then (w', HangUp) else ServeAll(router, node, w', actions[1..])
  }

  /** Whether a gated request ends the connection, and whether it leaves it authenticated. */
  predicate Parting<S, C>(a: Action<S, C>)
  {
    a.ReplyThenClose? || a.Shutdown?
  }

  predicate Admitted<S, C>(a: Action<S, C>, authenticated: bool)
  {
    authenticated || (a.Authenticate? && a.ok)
  }

  /** How many frames requests earn: one each, up to the one that ends the connection, and none
      for a stop. It depends on nothing a router answers. */
  function Earned<S, C>(node: Node, actions: seq<Action<S, C>>, authenticated: bool): nat
    decreases |actions|
  {
    if actions == [] then 0
    else
      var a := Gated(node, actions[0], authenticated);
      if a.Shutdown? then 0
      else if a.ReplyThenClose? then 1
      else 1 + Earned(node, actions[1..], Admitted(a, authenticated))
  }

  /** Whether some request ends the connection. */
  predicate Leaves<S, C>(node: Node, actions: seq<Action<S, C>>, authenticated: bool)
    decreases |actions|
  {
    && actions != []
    && var a := Gated(node, actions[0], authenticated);
       Parting(a) || Leaves(node, actions[1..], Admitted(a, authenticated))
  }

  lemma EarnedStep<S, C>(node: Node, actions: seq<Action<S, C>>, authenticated: bool)
    requires actions != []
    ensures var a := Gated(node, actions[0], authenticated);
            var later := if Parting(a) then 0 else Earned(node, actions[1..], Admitted(a, authenticated));
            && Earned(node, actions, authenticated) == (if a.Shutdown? then 0 else 1) + later
            && Leaves(node, actions, authenticated)
            == (Parting(a) || Leaves(node, actions[1..], Admitted(a, authenticated)))
  {
    hide Gated;
  }

  lemma EarnedNothing<S, C>(node: Node, actions: seq<Action<S, C>>, authenticated: bool)
    ensures actions == [] ==> Earned(node, actions, authenticated) == 0 && !Leaves(node, actions, authenticated)
  {
  }

  /** Where requests are cut makes no difference to serving them. */
  lemma {:induction false} ServeAllJoins<S, C>(
    router: Router<S, C>, node: Node, w: World<S>, a: seq<Action<S, C>>, b: seq<Action<S, C>>)
    ensures var (w', status) := ServeAll(router, node, w, a);
            ServeAll(router, node, w, a + b) == if status.HangUp? then (w', HangUp) else ServeAll(router, node, w', b)
    decreases |a|
  {
    hide Serve, Gated;
    if a == [] {
      assert a + b == b;
    } else {
      assert (a + b)[1..] == a[1..] + b;
      var (w', status) := Serve(router, w, Gated(node, a[0], w.authenticated));
      if status.Going? {
        ServeAllJoins(router, node, w', a[1..], b);
      }
    }
  }

  /** A peer that never authenticates never touches the store or stops the node. */
  lemma {:induction false} StrangerTouchesNothing<S, C>(
    router: Router<S, C>, node: Node, w: World<S>, actions: seq<Action<S, C>>)
    requires !w.authenticated
    requires forall i :: 0 <= i < |actions| ==> !(actions[i].Authenticate? && actions[i].ok)
    ensures var (w', _) := ServeAll(router, node, w, actions);
            w'.store == w.store && w'.stopAsked == w.stopAsked && !w'.authenticated
    decreases |actions|
  {
    hide Gated;
    if actions != [] {
      GateHolds(node, actions[0]);
      var (w', status) := Serve(router, w, Gated(node, actions[0], false));
      if status.Going? {
        StrangerTouchesNothing(router, node, w', actions[1..]);
      }
    }
  }

  // ---------- A chunk ----------

  /** A request's place in a chunk: answered already, or waiting on one batch entry or a run. */
  datatype Slot = Ready(frame: Frame) | Pending(index: nat) | Spanned(first: nat, len: nat)

  /** How many batch entries a slot waits on. */
  function Claim(slot: Slot): nat
  {
    match slot
    case Ready(_) => 0
    case Pending(_) => 1
    case Spanned(_, len) => len
  }

  function Claimed(slots: seq<Slot>): nat
  {
    if slots == [] then 0 else Claimed(slots[..|slots| - 1]) + Claim(slots[|slots| - 1])
  }

  predicate Placed(slot: Slot, at: nat)
  {
    (slot.Pending? ==> slot.index == at) && (slot.Spanned? ==> slot.first == at)
  }

  /** The slots claim the batch in order, each its own entries and all of them. */
  predicate InOrder(slots: seq<Slot>, batch: nat)
  {
    Claimed(slots) == batch && forall k :: 0 <= k < |slots| ==> Placed(slots[k], Claimed(slots[..k]))
  }

  /** The frame a slot is owed, from a batch's replies, complete or not. */
  function SlotFrame(slot: Slot, replies: seq<Reply>): Frame
  {
    match slot
    case Ready(frame) => frame
    case Pending(index) => ReplyToFrame(if index < |replies| then replies[index] else Unavailable())
    case Spanned(first, len) =>
      if first + len <= |replies| then FoldFrame(FoldArray(replies[first..first + len], len)) else Unrenderable()
  }

  function SlotFrames(slots: seq<Slot>, replies: seq<Reply>): (frames: seq<Frame>)
    ensures |frames| == |slots|
  {
    if slots == [] then []
    else SlotFrames(slots[..|slots| - 1], replies) + [SlotFrame(slots[|slots| - 1], replies)]
  }

  lemma {:induction false} ClaimedGrows(slots: seq<Slot>, k: nat)
    requires k <= |slots|
    ensures Claimed(slots[..k]) <= Claimed(slots)
    decreases |slots|
  {
    if k < |slots| {
      var n := |slots| - 1;
      assert slots[..n][..k] == slots[..k];
      ClaimedGrows(slots[..n], k);
    } else {
      assert slots[..k] == slots;
    }
  }

  lemma ClaimedPush(slots: seq<Slot>, slot: Slot)
    ensures Claimed(slots + [slot]) == Claimed(slots) + Claim(slot)
  {
    assert (slots + [slot])[..|slots|] == slots;
  }

  lemma InOrderPush(slots: seq<Slot>, slot: Slot, batch: nat)
    requires InOrder(slots, batch) && Placed(slot, batch)
    ensures InOrder(slots + [slot], Claimed(slots + [slot]))
  {
    var pushed := slots + [slot];
    forall k | 0 <= k < |pushed| ensures Placed(pushed[k], Claimed(pushed[..k])) {
      assert pushed[..k] == slots[..k] || k == |slots|;
      assert k == |slots| ==> pushed[..k] == slots;
      assert k < |slots| ==> Placed(slots[k], Claimed(slots[..k]));
    }
  }

  /** Replies behind the ones the slots wait on change nothing. */
  lemma {:induction false} FramesIgnoreMore(slots: seq<Slot>, replies: seq<Reply>, more: seq<Reply>)
    requires InOrder(slots, |replies|)
    ensures SlotFrames(slots, replies + more) == SlotFrames(slots, replies)
  {
    FramesOfPrefix(slots, replies, more, |slots|);
    assert slots[..|slots|] == slots;
  }

  lemma {:induction false} FramesOfPrefix(slots: seq<Slot>, replies: seq<Reply>, more: seq<Reply>, k: nat)
    requires InOrder(slots, |replies|) && k <= |slots|
    ensures SlotFrames(slots[..k], replies + more) == SlotFrames(slots[..k], replies)
    decreases k
  {
    hide SlotFrame;
    if k > 0 {
      FramesOfPrefix(slots, replies, more, k - 1);
      assert slots[..k][..k - 1] == slots[..k - 1];
      EntryInRange(slots, |replies|, k - 1);
      FrameIgnoresMore(slots[k - 1], replies, more);
    }
  }

  /** Every slot's entries are in the batch. */
  lemma EntryInRange(slots: seq<Slot>, batch: nat, k: nat)
    requires InOrder(slots, batch) && k < |slots|
    ensures slots[k].Pending? ==> slots[k].index < batch
    ensures slots[k].Spanned? ==> slots[k].first + slots[k].len <= batch
  {
    assert slots[..k + 1] == slots[..k] + [slots[k]];
    ClaimedPush(slots[..k], slots[k]);
    ClaimedGrows(slots, k + 1);
    assert Placed(slots[k], Claimed(slots[..k]));
  }

  lemma FrameIgnoresMore(slot: Slot, replies: seq<Reply>, more: seq<Reply>)
    requires slot.Pending? ==> slot.index < |replies|
    requires slot.Spanned? ==> slot.first + slot.len <= |replies|
    ensures SlotFrame(slot, replies + more) == SlotFrame(slot, replies)
  {
    hide FoldArray, ReplyToFrame;
    if slot.Spanned? {
      assert (replies + more)[slot.first..slot.first + slot.len] == replies[slot.first..slot.first + slot.len];
    }
  }

  lemma FramesPush(slots: seq<Slot>, slot: Slot, replies: seq<Reply>)
    ensures SlotFrames(slots + [slot], replies) == SlotFrames(slots, replies) + [SlotFrame(slot, replies)]
  {
    hide SlotFrame;
    assert (slots + [slot])[..|slots|] == slots;
  }

  // ---------- What an open chunk is owed ----------

  /** The store and the frames once an open chunk's batch has run in order. */
  ghost function Due<S, C>(router: Router<S, C>, store: S, batch: seq<C>, slots: seq<Slot>, frames: seq<Frame>)
    : (S, seq<Frame>)
  {
    var (after, replies) := ApplyAll(router, store, batch);
    (after, frames + SlotFrames(slots, replies))
  }

  lemma DueReady<S, C>(router: Router<S, C>, store: S, batch: seq<C>, slots: seq<Slot>, frames: seq<Frame>, f: Frame)
    ensures var (after, due) := Due(router, store, batch, slots, frames);
            Due(router, store, batch, slots + [Ready(f)], frames) == (after, due + [f])
  {
    hide SlotFrames, ApplyAll;
    var replies := ApplyAll(router, store, batch).1;
    FramesPush(slots, Ready(f), replies);
    assert frames + (SlotFrames(slots, replies) + [f]) == frames + SlotFrames(slots, replies) + [f];
  }

  /** A slot pushed with the commands it waits on is owed what those commands answer when they
      run behind the batch. */
  lemma DuePush<S, C>(router: Router<S, C>, store: S, batch: seq<C>, slots: seq<Slot>, frames: seq<Frame>,
                      cmds: seq<C>, slot: Slot, f: Frame)
    requires InOrder(slots, |batch|)
    requires var (mid, first) := ApplyAll(router, store, batch);
             SlotFrame(slot, first + ApplyAll(router, mid, cmds).1) == f
    ensures var (mid, due) := Due(router, store, batch, slots, frames);
            Due(router, store, batch + cmds, slots + [slot], frames) == (ApplyAll(router, mid, cmds).0, due + [f])
  {
    hide SlotFrames, SlotFrame, ApplyAll, InOrder;
    var (mid, first) := ApplyAll(router, store, batch);
    var second := ApplyAll(router, mid, cmds).1;
    ApplyAllJoins(router, store, batch, cmds);
    FramesPush(slots, slot, first + second);
    FramesIgnoreMore(slots, first, second);
    assert frames + (SlotFrames(slots, first) + [f]) == frames + SlotFrames(slots, first) + [f];
  }

  lemma DueDispatch<S, C>(router: Router<S, C>, store: S, batch: seq<C>, slots: seq<Slot>, frames: seq<Frame>, cmd: C)
    requires InOrder(slots, |batch|)
    ensures var (mid, due) := Due(router, store, batch, slots, frames);
            var (after, reply) := router.apply(mid, cmd);
            Due(router, store, batch + [cmd], slots + [Pending(|batch|)], frames)
            == (after, due + [ReplyToFrame(reply)])
  {
    hide SlotFrames, InOrder, ReplyToFrame;
    var (mid, first) := ApplyAll(router, store, batch);
    ApplyOne(router, mid, cmd);
    DuePush(router, store, batch, slots, frames, [cmd], Pending(|batch|), ReplyToFrame(router.apply(mid, cmd).1));
  }

  lemma ApplyOne<S, C>(router: Router<S, C>, store: S, cmd: C)
    ensures ApplyAll(router, store, [cmd]) == (router.apply(store, cmd).0, [router.apply(store, cmd).1])
  {
    assert [cmd][..0] == [];
    var none: seq<Reply> := [];
    assert none + [router.apply(store, cmd).1] == [router.apply(store, cmd).1];
  }

  lemma DueSpan<S, C>(router: Router<S, C>, store: S, batch: seq<C>, slots: seq<Slot>, frames: seq<Frame>, cmds: seq<C>)
    requires InOrder(slots, |batch|) && |cmds| <= CHUNK_COMMANDS
    ensures var (mid, due) := Due(router, store, batch, slots, frames);
            var (after, frame) := FanOutAnswer(router, mid, cmds, AsArray);
            Due(router, store, batch + cmds, slots + [Spanned(|batch|, |cmds|)], frames) == (after, due + [frame])
  {
    hide SlotFrames, InOrder, ApplyAll, FoldArray, ArrayFrom;
    var (mid, first) := ApplyAll(router, store, batch);
    var second := ApplyAll(router, mid, cmds).1;
    assert (first + second)[|first|..|first| + |second|] == second;
    BoundedArrayIsOneFold(router, mid, cmds);
    DuePush(router, store, batch, slots, frames, cmds, Spanned(|batch|, |cmds|),
            FoldFrame(FoldArray(second, |cmds|)));
  }

  /** With no chunk open, what is owed is what there is. */
  lemma DueNothing<S, C>(router: Router<S, C>, store: S, frames: seq<Frame>)
    ensures Due(router, store, [], [], frames) == (store, frames)
  {
    assert frames + [] == frames;
  }

  /** Replies nobody has taken yet, from a batch entry on. */
  ghost predicate Untaken(left: seq<Option<Reply>>, replies: seq<Reply>, at: nat)
  {
    |left| == |replies| && forall j :: at <= j < |left| ==> left[j] == Some(replies[j])
  }

  /** The frame a slot is owed, taking its replies as it reads them. */
  method TakeFrame(slot: Slot, left: seq<Option<Reply>>, ghost replies: seq<Reply>, ghost at: nat)
    returns (frame: Frame, left': seq<Option<Reply>>)
    requires Placed(slot, at) && Untaken(left, replies, at)
    ensures frame == SlotFrame(slot, replies) && Untaken(left', replies, at + Claim(slot))
  {
    hide ReplyToFrame, Unavailable, Unrenderable, FoldArray;
    left' := left;
    match slot {
      case Ready(f) => frame := f;
      case Pending(index) =>
        var reply := Unavailable();
        if index < |left| && left[index].Some? {
          reply := left[index].value;
          left' := left[index := None];
        }
        frame := ReplyToFrame(reply);
      case Spanned(first, len) =>
        if first + len > |left| {
          frame := Unrenderable();
        } else {
          var run: seq<Reply>;
          run, left' := TakeRun(left, first, len, replies);
          var folded := FoldReplies(run, len);
          frame := FoldFrame(folded);
        }
    }
  }

  method TakeRun(left: seq<Option<Reply>>, first: nat, len: nat, ghost replies: seq<Reply>)
    returns (run: seq<Reply>, left': seq<Option<Reply>>)
    requires first + len <= |left| && Untaken(left, replies, first)
    ensures run == replies[first..first + len] && Untaken(left', replies, first + len)
  {
    hide Unavailable;
    run, left' := [], left;
    for i := first to first + len
      invariant run == replies[first..i] && |left'| == |left|
      invariant forall j :: i <= j < |left'| ==> left'[j] == Some(replies[j])
    {
      var reply := if left'[i].Some? then left'[i].value else Unavailable();
      left' := left'[i := None];
      run := run + [reply];
    }
  }

  class Connection<S(!new), C(!new)> {
    const router: Router<S, C>
    const node: Node
    var store: S
    var slots: seq<Slot>
    var batch: seq<C>
    var authenticated: bool
    var stopAsked: bool
    /** Bytes encoded and not yet written, and bytes written. */
    var out: seq<byte>
    var sent: seq<byte>
    /** The frames encoded so far. */
    ghost var frames: seq<Frame>

    ghost predicate Valid()
      reads this
    {
      InOrder(slots, |batch|) && |batch| <= CHUNK_COMMANDS && sent + out == WireAll(frames)
    }

    /** What serving the requests so far one at a time would have come to. */
    ghost function Owed(): World<S>
      reads this
    {
      var (after, due) := Due(router, store, batch, slots, frames);
      World(after, authenticated, due, stopAsked)
    }

    constructor (router: Router<S, C>, node: Node, store: S, authenticated: bool)
      ensures Valid() && this.router == router && this.node == node && slots == [] && batch == []
      ensures Owed() == World(store, authenticated, [], false)
    {
      this.router, this.node := router, node;
      this.store := store;
      this.authenticated := authenticated;
      slots, batch, stopAsked, out, sent, frames := [], [], false, [], [], [];
      new;
      DueNothing(router, store, []);
    }

    method Flush()
      modifies this`out, this`sent
      ensures out == [] && sent == old(sent + out)
    {
      sent := sent + out;
      out := [];
    }

    /** Encodes a frame behind the others, and writes once enough has gathered. */
    method AppendFrame(frame: Frame)
      requires sent + out == WireAll(frames)
      modifies this`out, this`sent, this`frames
      ensures sent + out == WireAll(frames) && frames == old(frames) + [frame]
    {
      hide Wire, WireAll;
      WireAppends(frames, frame);
      ghost var before := out;
      out := Encode(frame, out);
      assert sent + (before + Wire(frame)) == sent + before + Wire(frame);
      frames := frames + [frame];
      if |out| >= REPLY_HIGH_WATER {
        Flush();
        assert sent + [] == sent;
      }
    }

    /** Closes the chunk: one dispatch for the whole batch, then every slot's frame in request
        order, one each however many replies came back. */
    method EmitChunk()
      requires Valid()
      modifies this`store, this`slots, this`batch, this`out, this`sent, this`frames
      ensures Valid() && slots == [] && batch == []
      ensures var (after, replies) := Dispatched(router, old(store), old(batch));
              store == after && frames == old(frames) + SlotFrames(old(slots), replies)
      ensures Faithful(router) ==> Owed() == old(Owed())
    {
      hide Faithful, Resp.Wire, Resp.WireAll, SlotFrames, SlotFrame, Routing.ApplyAll, Claimed, Placed;
      NothingClaimed(slots, batch);
      NothingYet(slots, [], frames);
      if slots == [] {
        return;
      }
      ghost var before, cmds := store, batch;
      var replies: seq<Reply> := [];
      if batch != [] {
        var (moved, answers) := router.many(store, batch);
        store, replies := moved, answers;
        batch := [];
      }
      FaithfulReplies(router, before, cmds);
      ghost var after := store;
      var closing, k := slots, 0;
      var left := seq(|replies|, i requires 0 <= i < |replies| => Some(replies[i]));
      slots := [];
      NothingYet(closing, replies, frames);
      while k < |closing|
        invariant 0 <= k <= |closing| && slots == [] && batch == [] && store == after
        invariant Untaken(left, replies, Claimed(closing[..k]))
        invariant frames == old(frames) + SlotFrames(closing[..k], replies)
        invariant sent + out == WireAll(frames)
      {
        assert closing[..k + 1] == closing[..k] + [closing[k]];
        ClaimedPush(closing[..k], closing[k]);
        FramesPush(closing[..k], closing[k], replies);
        assert Placed(closing[k], Claimed(closing[..k]));
        var frame;
        frame, left := TakeFrame(closing[k], left, replies, Claimed(closing[..k]));
        AppendFrame(frame);
        assert old(frames) + (SlotFrames(closing[..k], replies) + [frame])
            == old(frames) + SlotFrames(closing[..k], replies) + [frame];
        k := k + 1;
      }
      assert closing[..|closing|] == closing;
      EmptyInOrder();
      DueNothing(router, store, frames);
    }

    /** A frame known already takes its place behind the requests ahead of it. */
    method PushReady(frame: Frame)
      requires Valid()
      modifies this`slots
      ensures Valid() && |slots| == |old(slots)| + 1
      ensures Owed() == Answered(old(Owed()), old(Owed()).store, frame)
    {
      hide Due, InOrder;
      DueReady(router, store, batch, slots, frames, frame);
      PushInOrder(slots, Ready(frame), |batch|);
      slots := slots + [Ready(frame)];
    }

    /** A keyed command joins the batch, which goes out at the mark. */
    method PushCommand(cmd: C)
      requires Valid() && |batch| < CHUNK_COMMANDS
      modifies this`store, this`slots, this`batch, this`out, this`sent, this`frames
      ensures Valid() && |batch| < CHUNK_COMMANDS
      ensures |frames| + |slots| == |old(frames)| + |old(slots)| + 1
      ensures Faithful(router) ==>
                var (after, reply) := router.apply(old(Owed()).store, cmd);
                Owed() == Answered(old(Owed()), after, ReplyToFrame(reply))
    {
      hide Due, InOrder, Faithful, ReplyToFrame;
      DueDispatch(router, store, batch, slots, frames, cmd);
      PushInOrder(slots, Pending(|batch|), |batch|);
      slots := slots + [Pending(|batch|)];
      batch := batch + [cmd];
      if |batch| >= CHUNK_COMMANDS {
        EmitChunk();
      }
    }

    /** A bounded multi-key read joins the batch as a run of it. */
    method PushSpan(cmds: seq<C>)
      requires Valid() && |batch| < CHUNK_COMMANDS && |cmds| <= CHUNK_COMMANDS
      modifies this`store, this`slots, this`batch, this`out, this`sent, this`frames
      ensures Valid() && |batch| < CHUNK_COMMANDS
      ensures |frames| + |slots| == |old(frames)| + |old(slots)| + 1
      ensures Faithful(router) ==>
                var (after, frame) := FanOutAnswer(router, old(Owed()).store, cmds, AsArray);
                Owed() == Answered(old(Owed()), after, frame)
    {
      hide Due, InOrder, Faithful, FanOutAnswer, Resp.WireAll, SlotFrames, Routing.ApplyAll;
      if |batch| + |cmds| > CHUNK_COMMANDS {
        EmitChunk();
      }
      DueSpan(router, store, batch, slots, frames, cmds);
      PushInOrder(slots, Spanned(|batch|, |cmds|), |batch|);
      slots := slots + [Spanned(|batch|, |cmds|)];
      batch := batch + cmds;
      if |batch| >= CHUNK_COMMANDS {
        EmitChunk();
      }
    }

    /** A request answered on its own: everything ahead of it runs first. */
    method RunAlone(run: S -> (S, Frame))
      requires Valid()
      modifies this`store, this`slots, this`batch, this`out, this`sent, this`frames
      ensures Valid() && batch == []
      ensures |frames| + |slots| == |old(frames)| + |old(slots)| + 1
      ensures Faithful(router) ==>
                var (after, frame) := run(old(Owed()).store);
                Owed() == Answered(old(Owed()), after, frame)
    {
      hide Due, InOrder, Faithful;
      EmitChunk();
      DueNothing(router, store, frames);
      var (after, frame) := run(store);
      store := after;
      DueNothing(router, store, frames);
      PushReady(frame);
    }

    /** A large or summed multi-key request, fanned out on its own. */
    method RunFanOut(cmds: seq<C>, fold: Fold)
      requires Valid()
      modifies this`store, this`slots, this`batch, this`out, this`sent, this`frames
      ensures Valid() && batch == []
      ensures |frames| + |slots| == |old(frames)| + |old(slots)| + 1
      ensures Faithful(router) ==>
                var (after, frame) := FanOutAnswer(router, old(Owed()).store, cmds, fold);
                Owed() == Answered(old(Owed()), after, frame)
    {
      hide Due, InOrder, Faithful, FanOutAnswer;
      EmitChunk();
      DueNothing(router, store, frames);
      var after, frame := FanOut(router, store, cmds, fold);
      store := after;
      DueNothing(router, store, frames);
      PushReady(frame);
    }

    /** One request of the drain. Chunked, it comes to exactly what serving it alone comes to;
        and with any router at all it still earns one frame, a stop none. */
    method Handle(action: Action<S, C>) returns (status: Status)
      requires Valid() && |batch| < CHUNK_COMMANDS
      modifies this
      ensures Valid() && |batch| < CHUNK_COMMANDS
      ensures Faithful(router) ==>
                (Owed(), status) == Serve(router, old(Owed()), Gated(node, action, old(authenticated)))
      ensures var earned := if Gated(node, action, old(authenticated)).Shutdown? then 0 else 1;
              |frames| + |slots| == |old(frames)| + |old(slots)| + earned
      ensures status.HangUp? <==> Parting(Gated(node, action, old(authenticated)))
      ensures authenticated == Admitted(Gated(node, action, old(authenticated)), old(authenticated))
    {
      hide Due, InOrder, Faithful, FanOutAnswer, ReplyToFrame;
      status := Going;
      match Gated(node, action, authenticated) {
        case Dispatch(cmd) => PushCommand(cmd);
        case Split(cmds, fold) =>
          if fold.AsArray? && |cmds| <= CHUNK_COMMANDS {
            PushSpan(cmds);
          } else {
            RunFanOut(cmds, fold);
          }
        case Alone(run) => RunAlone(run);
        case Answer(frame) => PushReady(frame);
        case Hello(frame) => PushReady(frame);
        case Refuse(frame) => PushReady(frame);
        case Authenticate(ok, frame) =>
          if ok {
            authenticated := true;
          }
          PushReady(frame);
        case ReplyThenClose(frame) =>
          PushReady(frame);
          status := HangUp;
        case Shutdown =>
          EmitChunk();
          stopAsked := true;
          status := HangUp;
      }
    }

    /** The requests the decoder holds, until they run out or one ends the connection. */
    method Drain(actions: seq<Action<S, C>>) returns (status: Status)
      requires Valid() && |batch| < CHUNK_COMMANDS
      modifies this
      ensures Valid()
      ensures Faithful(router) ==> (Owed(), status) == ServeAll(router, node, old(Owed()), actions)
      ensures status.HangUp? <==> Leaves(node, actions, old(authenticated))
      ensures |frames| + |slots| == |old(frames)| + |old(slots)| + Earned(node, actions, old(authenticated))
    {
      hide Due, InOrder, Faithful, Serve, Gated, Resp.WireAll, Earned, Leaves, ServeAll;
      status := Going;
      var i := 0;
      assert actions[0..] == actions;
      while i < |actions|
        invariant 0 <= i <= |actions| && Valid() && |batch| < CHUNK_COMMANDS && status.Going?
        invariant Faithful(router) ==>
                    ServeAll(router, node, old(Owed()), actions) == ServeAll(router, node, Owed(), actions[i..])
        invariant |frames| + |slots| + Earned(node, actions[i..], authenticated)
               == |old(frames)| + |old(slots)| + Earned(node, actions, old(authenticated))
        invariant Leaves(node, actions[i..], authenticated) == Leaves(node, actions, old(authenticated))
      {
        assert actions[i..][1..] == actions[i + 1..] && actions[i..][0] == actions[i];
        EarnedStep(node, actions[i..], authenticated);
        ServeStep(router, node, Owed(), actions[i..]);
        status := Handle(actions[i]);
        if status.HangUp? {
          return;
        }
        i := i + 1;
      }
      EarnedNothing(node, actions[i..], authenticated);
      ServeNothing(router, node, Owed(), actions[i..]);
    }

    /** One pass: every request the decoder holds, then the open chunk, then a flush. Bytes that
        can never be a frame are answered behind everything already earned. */
    method Pass(actions: seq<Action<S, C>>, refusal: Option<Frame>) returns (status: Status)
      requires Valid() && slots == [] && batch == []
      modifies this
      ensures Valid() && slots == [] && batch == [] && out == [] && sent == WireAll(frames)
      ensures Faithful(router) ==>
                var (w, s) := ServeAll(router, node, old(Owed()), actions);
                var refused := s.Going? && refusal.Some?;
                && Owed() == (if refused then Answered(w, w.store, refusal.value) else w)
                && status == (if refused then HangUp else s)
      ensures status.HangUp? <==> Leaves(node, actions, old(authenticated)) || refusal.Some?
      ensures var refused := !Leaves(node, actions, old(authenticated)) && refusal.Some?;
              |frames| == |old(frames)| + Earned(node, actions, old(authenticated)) + if refused then 1 else 0
    {
      hide Due, InOrder, Faithful, Resp.WireAll, Earned, Leaves, ServeAll;
      status := Drain(actions);
      EmitChunk();
      DueNothing(router, store, frames);
      if status.Going? && refusal.Some? {
        AppendFrame(refusal.value);
        DueNothing(router, store, frames);
        status := HangUp;
      }
      Flush();
      assert sent + [] == sent;
    }
  }

  lemma ServeNothing<S, C>(router: Router<S, C>, node: Node, w: World<S>, actions: seq<Action<S, C>>)
    ensures actions == [] ==> ServeAll(router, node, w, actions) == (w, Going)
  {
  }

  lemma ServeStep<S, C>(router: Router<S, C>, node: Node, w: World<S>, actions: seq<Action<S, C>>)
    requires actions != []
    ensures var (w', status) := Serve(router, w, Gated(node, actions[0], w.authenticated));
            var rest := if status.HangUp? then (w', HangUp) else ServeAll(router, node, w', actions[1..]);
            ServeAll(router, node, w, actions) == rest
  {
    hide Serve, Gated;
  }

  lemma PushInOrder(slots: seq<Slot>, slot: Slot, batch: nat)
    requires InOrder(slots, batch) && Placed(slot, batch)
    ensures InOrder(slots + [slot], batch + Claim(slot))
  {
    hide Claimed;
    InOrderPush(slots, slot, batch);
    ClaimedPush(slots, slot);
  }

  /** What a batch comes to: an empty one is not dispatched. */
  function Dispatched<S, C>(router: Router<S, C>, store: S, batch: seq<C>): (S, seq<Reply>)
  {
    if batch == [] then (store, []) else router.many(store, batch)
  }

  lemma FaithfulReplies<S(!new), C(!new)>(router: Router<S, C>, store: S, cmds: seq<C>)
    ensures Faithful(router) ==> router.many(store, cmds) == ApplyAll(router, store, cmds)
    ensures ApplyAll(router, store, []) == (store, [])
  {
  }

  lemma NothingYet(slots: seq<Slot>, replies: seq<Reply>, frames: seq<Frame>)
    ensures Claimed(slots[..0]) == 0 && frames + SlotFrames(slots[..0], replies) == frames
  {
    assert frames + [] == frames;
  }

  lemma EmptyInOrder()
    ensures InOrder([], 0)
  {
  }

  lemma NothingClaimed<C>(slots: seq<Slot>, batch: seq<C>)
    requires InOrder(slots, |batch|)
    ensures slots == [] ==> batch == []
  {
  }
}
