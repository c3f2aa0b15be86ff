/**
 The router as the connection sees it, the frames its replies become, and a request that is
 split into one-key commands and folded back into one frame.
 */
module Routing {
  import opened Basics
  import opened Decimals
  import opened Resp

  const CHUNK_COMMANDS: nat := 128

  /** `OK` */
  const OK_TEXT: seq<byte> := [79, 75]

  /** `ERR shard is unavailable` */
  const UNAVAILABLE_TEXT: seq<byte> :=
    [69, 82, 82, 32, 115, 104, 97, 114, 100, 32, 105, 115, 32, 117, 110, 97, 118, 97, 105, 108, 97, 98, 108, 101]

  /** `ERR internal reply could not be rendered` */
  const UNRENDERABLE_TEXT: seq<byte> :=
    [69, 82, 82, 32, 105, 110, 116, 101, 114, 110, 97, 108, 32, 114, 101, 112, 108, 121, 32, 99, 111, 117, 108, 100,
     32, 110, 111, 116, 32, 98, 101, 32, 114, 101, 110, 100, 101, 114, 101, 100]

  datatype Reply =
    | Ok
    | Status(text: seq<byte>)
    | Found(value: Option<seq<byte>>)
    | Removed(removed: bool)
    | Count(n: int)
    | ScanPage
    | Stats
    | Failure(text: seq<byte>)

  function Unavailable(): Reply
  {
    Failure(UNAVAILABLE_TEXT)
  }

  function Unrenderable(): Frame
  {
    Error(UNRENDERABLE_TEXT)
  }

  function ReplyToFrame(r: Reply): Frame
  {
    match r
    case Ok => Simple(OK_TEXT)
    case Status(text) => Simple(text)
    case Found(None) => Null
    case Found(Some(value)) => Bulk(value)
    case Removed(removed) => Integer(if removed then 1 else 0)
    case Count(n) => Integer(n)
    case ScanPage => Unrenderable()
    case Stats => Unrenderable()
    case Failure(text) => Error(text)
  }

  /** A router: how one command changes the store and what it answers, and what a batch does. */
  datatype Router<!S, !C> = Router(apply: (S, C) -> (S, Reply), many: (S, seq<C>) -> (S, seq<Reply>))

  /** The commands of a batch applied one after another, with one reply each. */
  function ApplyAll<S, C>(router: Router<S, C>, store: S, cmds: seq<C>): (r: (S, seq<Reply>))
    ensures |r.1| == |cmds|
  {
    if cmds == [] then (store, [])
    else
      var n := |cmds| - 1;
      var (before, replies) := ApplyAll(router, store, cmds[..n]);
      var (after, reply) := router.apply(before, cmds[n]);
      (after, replies + [reply])
  }

  /** A router that answers a batch as if its commands ran one after another. */
  ghost predicate Faithful<S(!new), C(!new)>(router: Router<S, C>)
  {
    forall store, cmds :: router.many(store, cmds) == ApplyAll(router, store, cmds)
  }

  lemma {:induction false} ApplyAllJoins<S, C>(router: Router<S, C>, store: S, a: seq<C>, b: seq<C>)
    ensures var (mid, first) := ApplyAll(router, store, a);
            var (end, second) := ApplyAll(router, mid, b);
            ApplyAll(router, store, a + b) == (end, first + second)
    decreases |b|
  {
    if b == [] {
      assert a + b == a;
      assert ApplyAll(router, store, a).1 + [] == ApplyAll(router, store, a).1;
    } else {
      var n := |b| - 1;
      assert (a + b)[..|a + b| - 1] == a + b[..n];
      ApplyAllJoins(router, store, a, b[..n]);
      var (mid, first) := ApplyAll(router, store, a);
      var (before, second) := ApplyAll(router, mid, b[..n]);
      var reply := router.apply(before, b[n]).1;
      assert first + (second + [reply]) == first + second + [reply];
    }
  }

  // ---------- Folding ----------

  datatype Folded = Entries(frames: seq<Frame>) | Instead(frame: Frame)

  /** What a reply makes of an array it is to be an entry of. */
  function Entry(r: Reply): Folded
  {
    match r
    case Found(_) => Entries([ReplyToFrame(r)])
    case Failure(_) => Instead(ReplyToFrame(r))
    case _ => Instead(Unrenderable())
  }

  /** The array's entries, unless some reply cannot be one: the first such reply answers instead. */
  function Gathered(replies: seq<Reply>): Folded
  {
    if replies == [] then Entries([])
    else
      var n := |replies| - 1;
      var before := Gathered(replies[..n]);
      if before.Instead? then before
      else
        var last := Entry(replies[n]);
        if last.Instead? then last else Entries(before.frames + last.frames)
  }

  function FoldArray(replies: seq<Reply>, expected: nat): Folded
  {
    var g := Gathered(replies);
    if g.Entries? && |g.frames| != expected then Instead(Unrenderable()) else g
  }

  function FoldFrame(f: Folded): Frame
  {
    if f.Entries? then Array(f.frames) else f.frame
  }

  lemma {:induction false} GatheredStops(replies: seq<Reply>, n: nat)
    requires n <= |replies| && Gathered(replies[..n]).Instead?
    ensures Gathered(replies) == Gathered(replies[..n])
    decreases |replies|
  {
    if n == |replies| {
      assert replies[..n] == replies;
    } else {
      var m := |replies| - 1;
      assert replies[..m][..n] == replies[..n];
      GatheredStops(replies[..m], n);
    }
  }

  /** Entries when every reply is a value or its absence, one each in order. */
  lemma {:induction false} GatheredFound(replies: seq<Reply>)
    requires forall i :: 0 <= i < |replies| ==> replies[i].Found?
    ensures Gathered(replies).Entries? && |Gathered(replies).frames| == |replies|
    ensures forall i :: 0 <= i < |replies| ==> Gathered(replies).frames[i] == ReplyToFrame(replies[i])
  {
    hide ReplyToFrame, Unrenderable;
    if replies != [] {
      var n := |replies| - 1;
      GatheredFound(replies[..n]);
    }
  }

  /** Otherwise the first reply that is neither decides. */
  lemma GatheredOther(replies: seq<Reply>, k: nat)
    requires k < |replies| && !replies[k].Found? && forall i :: 0 <= i < k ==> replies[i].Found?
    ensures Gathered(replies).Instead? && Gathered(replies) == Entry(replies[k])
  {
    hide ReplyToFrame, Unrenderable;
    assert replies[..k + 1][..k] == replies[..k];
    GatheredFound(replies[..k]);
    GatheredStops(replies, k + 1);
  }

  /** So there are entries exactly when every reply is a value or its absence. */
  lemma {:induction false} GatheredMeans(replies: seq<Reply>)
    ensures Gathered(replies).Entries? <==> forall i :: 0 <= i < |replies| ==> replies[i].Found?
    ensures Gathered(replies).Instead? ==>
              exists k :: 0 <= k < |replies| && !replies[k].Found? && (forall i :: 0 <= i < k ==> replies[i].Found?)
                          && Gathered(replies) == Entry(replies[k])
  {
    hide Gathered, Entry;
    if forall i :: 0 <= i < |replies| ==> replies[i].Found? {
      GatheredFound(replies);
    } else {
      var k := FirstOther(replies);
      GatheredOther(replies, k);
    }
  }

  lemma {:induction false} FirstOther(replies: seq<Reply>) returns (k: nat)
    requires exists i :: 0 <= i < |replies| && !replies[i].Found?
    ensures k < |replies| && !replies[k].Found? && forall i :: 0 <= i < k ==> replies[i].Found?
  {
    var n := |replies| - 1;
    if i :| 0 <= i < n && !replies[i].Found? {
      assert !replies[..n][i].Found?;
      k := FirstOther(replies[..n]);
      assert forall i :: 0 <= i < k ==> replies[..n][i] == replies[i];
    } else {
      k := n;
    }
  }

  lemma GatheredNext(replies: seq<Reply>, i: nat)
    requires i < |replies| && Gathered(replies[..i]).Entries?
    ensures var e := Entry(replies[i]);
            Gathered(replies[..i + 1]) == if e.Instead? then e else Entries(Gathered(replies[..i]).frames + e.frames)
  {
    hide Entry;
    assert replies[..i + 1][..i] == replies[..i];
  }

  lemma NothingGathered()
    ensures Gathered([]) == Entries([])
  {
  }

  /** The fold as a loop that stops at the first reply that cannot be an entry. */
  method FoldReplies(replies: seq<Reply>, expected: nat) returns (r: Folded)
    ensures r == FoldArray(replies, expected)
  {
    hide ReplyToFrame, Unrenderable, Gathered;
    var entries: seq<Frame> := [];
    NothingGathered();
    for i := 0 to |replies|
      invariant Gathered(replies[..i]) == Entries(entries)
    {
      GatheredNext(replies, i);
      match replies[i] {
        case Found(_) => entries := entries + [ReplyToFrame(replies[i])];
        case Failure(_) =>
          GatheredStops(replies, i + 1);
          return Instead(ReplyToFrame(replies[i]));
        case _ =>
          GatheredStops(replies, i + 1);
          return Instead(Unrenderable());
      }
    }
    assert replies[..|replies|] == replies;
    if |entries| != expected {
      return Instead(Unrenderable());
    }
    return Entries(entries);
  }

  // ---------- Fanning out ----------

  datatype Fold = Sum | AsArray

  function SaturatingAdd(a: int, b: int): (r: int)
    ensures -0x8000_0000_0000_0000 <= r <= 0x7FFF_FFFF_FFFF_FFFF
    ensures r < a + b ==> r == 0x7FFF_FFFF_FFFF_FFFF
    ensures r > a + b ==> r == -0x8000_0000_0000_0000
  {
    if a + b > I64_MAX then I64_MAX else if a + b < I64_MIN then I64_MIN else a + b
  }

  /** Counts added up one command at a time; anything that is not a count ends it there. */
  function SumFrom<S, C>(router: Router<S, C>, store: S, cmds: seq<C>, total: int): (S, Frame)
    decreases |cmds|
  {
    if cmds == [] then (store, Integer(total))
    else
      var (after, reply) := router.apply(store, cmds[0]);
      match reply
      case Removed(removed) => SumFrom(router, after, cmds[1..], SaturatingAdd(total, if removed then 1 else 0))
      case Count(n) => SumFrom(router, after, cmds[1..], SaturatingAdd(total, n))
      case other => (after, ReplyToFrame(other))
  }

  function SliceLength(n: nat): nat
  {
    if n < CHUNK_COMMANDS then n else CHUNK_COMMANDS
  }

  /** Values gathered a slice at a time; a slice that answers something else ends it there. */
  function ArrayFrom<S, C>(router: Router<S, C>, store: S, cmds: seq<C>, entries: seq<Frame>): (S, Frame)
    decreases |cmds|
  {
    if cmds == [] then (store, Array(entries))
    else
      var n := SliceLength(|cmds|);
      var (after, replies) := ApplyAll(router, store, cmds[..n]);
      var part := FoldArray(replies, n);
      if part.Instead? then (after, part.frame)
      else ArrayFrom(router, after, cmds[n..], entries + part.frames)
  }

  /** What a split request does and answers. */
  function FanOutAnswer<S, C>(router: Router<S, C>, store: S, cmds: seq<C>, fold: Fold): (S, Frame)
  {
    if fold.Sum? then SumFrom(router, store, cmds, 0) else ArrayFrom(router, store, cmds, [])
  }

  method FanOut<S(!new), C(!new)>(router: Router<S, C>, store: S, cmds: seq<C>, fold: Fold)
    returns (store': S, frame: Frame)
    ensures Faithful(router) ==> (store', frame) == FanOutAnswer(router, store, cmds, fold)
  {
    store' := store;
    if fold.Sum? {
      var total, i := 0, 0;
      while i < |cmds|
        invariant 0 <= i <= |cmds|
        invariant SumFrom(router, store', cmds[i..], total) == SumFrom(router, store, cmds, 0)
      {
        assert cmds[i..][1..] == cmds[i + 1..];
        var (after, reply) := router.apply(store', cmds[i]);
        store' := after;
        match reply {
          case Removed(removed) => total := SaturatingAdd(total, if removed then 1 else 0);
          case Count(n) => total := SaturatingAdd(total, n);
          case other => return store', ReplyToFrame(other);
        }
        i := i + 1;
      }
      return store', Integer(total);
    }
    frame := Null;
    var entries: seq<Frame>, pending := [], cmds;
    while pending != []
      invariant Faithful(router) ==> ArrayFrom(router, store', pending, entries) == ArrayFrom(router, store, cmds, [])
      decreases |pending|
    {
      var n := SliceLength(|pending|);
      var slice := pending[..n];
      pending := pending[n..];
      var (after, replies) := router.many(store', slice);
      store' := after;
      var part := FoldReplies(replies, n);
      if part.Instead? {
        return store', part.frame;
      }
      entries := entries + part.frames;
    }
    return store', Array(entries);
  }

  // ---------- What fanning out comes to ----------

  predicate IsCount(r: Reply)
  {
    r.Removed? || r.Count?
  }

  function CountOf(r: Reply): int
    requires IsCount(r)
  {
    if r.Removed? then (if r.removed then 1 else 0) else r.n
  }

  predicate AllCounts(replies: seq<Reply>)
  {
    forall i :: 0 <= i < |replies| ==> IsCount(replies[i])
  }

  /** The counts added up in order, held within 64 bits at every step. */
  function Total(replies: seq<Reply>, total: int): int
    requires AllCounts(replies)
  {
    if replies == [] then total
    else
      var n := |replies| - 1;
      SaturatingAdd(Total(replies[..n], total), CountOf(replies[n]))
  }

  function PlainTotal(replies: seq<Reply>): int
    requires AllCounts(replies)
  {
    if replies == [] then 0 else PlainTotal(replies[..|replies| - 1]) + CountOf(replies[|replies| - 1])
  }

  /** Counts of removed or present keys, none negative, add up to their sum or to the ceiling. */
  lemma {:induction false} TotalIsTheSum(replies: seq<Reply>)
    requires AllCounts(replies) && forall i :: 0 <= i < |replies| ==> CountOf(replies[i]) >= 0
    ensures PlainTotal(replies) >= 0
    ensures var most := 0x7FFF_FFFF_FFFF_FFFF;
            Total(replies, 0) == if PlainTotal(replies) > most then most else PlainTotal(replies)
  {
    if replies != [] {
      var n := |replies| - 1;
      assert forall i :: 0 <= i < n ==> replies[..n][i] == replies[i];
      TotalIsTheSum(replies[..n]);
    }
  }

  /** The replies to the front of a batch do not depend on what follows it. */
  lemma ApplyFront<S, C>(router: Router<S, C>, store: S, cmds: seq<C>, k: nat)
    requires k <= |cmds|
    ensures ApplyAll(router, store, cmds[..k]).1 == ApplyAll(router, store, cmds).1[..k]
  {
    assert cmds == cmds[..k] + cmds[k..];
    ApplyAllJoins(router, store, cmds[..k], cmds[k..]);
  }

  lemma ApplyNext<S, C>(router: Router<S, C>, store: S, cmds: seq<C>, k: nat)
    requires k < |cmds|
    ensures var (mid, _) := ApplyAll(router, store, cmds[..k]);
            var (after, reply) := router.apply(mid, cmds[k]);
            ApplyAll(router, store, cmds[..k + 1]).0 == after && ApplyAll(router, store, cmds).1[k] == reply
  {
    assert cmds[..k + 1][..k] == cmds[..k];
    ApplyFront(router, store, cmds, k + 1);
    assert ApplyAll(router, store, cmds).1[..k + 1][k] == ApplyAll(router, store, cmds).1[k];
  }

  /** Past commands that all answered counts, a sum goes on from their total. */
  lemma {:induction false} SumGoesOn<S, C>(router: Router<S, C>, store: S, cmds: seq<C>, total: int, k: nat)
    requires k <= |cmds| && AllCounts(ApplyAll(router, store, cmds).1[..k])
    ensures SumFrom(router, store, cmds, total)
         == SumFrom(router, ApplyAll(router, store, cmds[..k]).0, cmds[k..],
                    Total(ApplyAll(router, store, cmds).1[..k], total))
    decreases k
  {
    hide ApplyAll;
    var replies := ApplyAll(router, store, cmds).1;
    if k == 0 {
      NoneApplied(router, store);
      assert cmds[..0] == [] && cmds[0..] == cmds && replies[..0] == [];
    } else {
      assert replies[..k][..k - 1] == replies[..k - 1] && replies[..k][k - 1] == replies[k - 1];
      assert forall i :: 0 <= i < k - 1 ==> replies[..k - 1][i] == replies[..k][i];
      SumGoesOn(router, store, cmds, total, k - 1);
      ApplyNext(router, store, cmds, k - 1);
      assert cmds[k - 1..][1..] == cmds[k..];
    }
  }

  lemma NoneApplied<S, C>(router: Router<S, C>, store: S)
    ensures ApplyAll(router, store, []) == (store, [])
  {
  }

  /** A sum, when every command answers a count, is their total with every command run; otherwise
      it is the first other reply, with nothing run behind it. */
  lemma SumMeans<S, C>(router: Router<S, C>, store: S, cmds: seq<C>)
    ensures var (after, replies) := ApplyAll(router, store, cmds);
            AllCounts(replies) ==> SumFrom(router, store, cmds, 0) == (after, Integer(Total(replies, 0)))
    ensures var replies := ApplyAll(router, store, cmds).1;
            forall k :: 0 <= k < |cmds| && AllCounts(replies[..k]) && !IsCount(replies[k]) ==>
              SumFrom(router, store, cmds, 0) == (ApplyAll(router, store, cmds[..k + 1]).0, ReplyToFrame(replies[k]))
  {
    hide ApplyAll, ReplyToFrame, Total;
    var replies := ApplyAll(router, store, cmds).1;
    if AllCounts(replies) {
      assert replies[..|cmds|] == replies && cmds[..|cmds|] == cmds && cmds[|cmds|..] == [];
      SumGoesOn(router, store, cmds, 0, |cmds|);
    }
    forall k | 0 <= k < |cmds| && AllCounts(replies[..k]) && !IsCount(replies[k])
      ensures SumFrom(router, store, cmds, 0) == (ApplyAll(router, store, cmds[..k + 1]).0, ReplyToFrame(replies[k]))
    {
      SumGoesOn(router, store, cmds, 0, k);
      ApplyNext(router, store, cmds, k);
    }
  }

  /** How many commands have run by the end of the slice the `k`-th is in. */
  function SliceEnd(k: nat, n: nat): (end: nat)
    ensures end <= n
  {
    var end := (k / CHUNK_COMMANDS + 1) * CHUNK_COMMANDS;
    if end < n then end else n
  }

  lemma FirstSliceEnds(k: nat, n: nat)
    requires k < SliceLength(n)
    ensures SliceEnd(k, n) == SliceLength(n)
  {
  }

  lemma SliceShifts(k: nat, n: nat)
    requires CHUNK_COMMANDS <= k < n
    ensures SliceEnd(k, n) == CHUNK_COMMANDS + SliceEnd(k - CHUNK_COMMANDS, n - CHUNK_COMMANDS)
  {
  }

  predicate AllFound(replies: seq<Reply>)
  {
    forall i :: 0 <= i < |replies| ==> replies[i].Found?
  }

  function Frames(replies: seq<Reply>): seq<Frame>
  {
    seq(|replies|, i requires 0 <= i < |replies| => ReplyToFrame(replies[i]))
  }

  lemma FoundJoins(a: seq<Reply>, b: seq<Reply>)
    ensures AllFound(a + b) <==> AllFound(a) && AllFound(b)
    ensures Frames(a + b) == Frames(a) + Frames(b)
  {
    hide ReplyToFrame;
    var c := a + b;
    if AllFound(c) {
      assert forall i :: 0 <= i < |a| ==> a[i] == c[i];
      forall i | 0 <= i < |b| ensures b[i].Found? {
        assert b[i] == c[|a| + i];
      }
    }
  }

  lemma FoldOfFound(replies: seq<Reply>)
    requires AllFound(replies)
    ensures FoldArray(replies, |replies|) == Entries(Frames(replies))
  {
    hide ReplyToFrame, Gathered;
    GatheredFound(replies);
    assert Gathered(replies).frames == Frames(replies);
  }

  lemma FoldOfOther(replies: seq<Reply>, k: nat)
    requires k < |replies| && AllFound(replies[..k]) && !replies[k].Found?
    ensures Entry(replies[k]).Instead? && FoldArray(replies, |replies|) == Entry(replies[k])
  {
    hide Gathered, Entry;
    assert forall i :: 0 <= i < k ==> replies[..k][i] == replies[i];
    GatheredOther(replies, k);
  }

  /** A batch cut after its first slice. */
  lemma FirstSlice<S, C>(router: Router<S, C>, store: S, cmds: seq<C>)
    ensures var n := SliceLength(|cmds|);
            var (mid, first) := ApplyAll(router, store, cmds[..n]);
            var (after, second) := ApplyAll(router, mid, cmds[n..]);
            |first| == n && ApplyAll(router, store, cmds) == (after, first + second)
  {
    hide ApplyAll;
    var n := SliceLength(|cmds|);
    assert cmds == cmds[..n] + cmds[n..];
    ApplyAllJoins(router, store, cmds[..n], cmds[n..]);
  }

  /** When every command finds a value or its absence, slicing is invisible: every command runs
      and the array has one frame for each, in order. */
  lemma {:induction false} ArrayOfFound<S, C>(router: Router<S, C>, store: S, cmds: seq<C>, entries: seq<Frame>)
    requires AllFound(ApplyAll(router, store, cmds).1)
    ensures var (after, replies) := ApplyAll(router, store, cmds);
            ArrayFrom(router, store, cmds, entries) == (after, Array(entries + Frames(replies)))
    decreases |cmds|
  {
    hide ApplyAll, FoldArray, AllFound, Frames;
    if cmds == [] {
      NoneApplied(router, store);
      NoFrames();
      assert entries + [] == entries;
    } else {
      var n := SliceLength(|cmds|);
      var (mid, first) := ApplyAll(router, store, cmds[..n]);
      var (after, second) := ApplyAll(router, mid, cmds[n..]);
      FirstSlice(router, store, cmds);
      FoundJoins(first, second);
      FoldOfFound(first);
      ArrayOfFound(router, mid, cmds[n..], entries + Frames(first));
      assert entries + Frames(first) + Frames(second) == entries + (Frames(first) + Frames(second));
    }
  }

  lemma NoFrames()
    ensures Frames([]) == []
  {
  }

  /** Otherwise the first other reply decides the answer, and what has run is the slices up to and
      including its own. */
  lemma {:induction false} ArrayOfOther<S, C>(router: Router<S, C>, store: S, cmds: seq<C>, entries: seq<Frame>, k: nat)
    requires var replies := ApplyAll(router, store, cmds).1;
             k < |cmds| && AllFound(replies[..k]) && !replies[k].Found?
    ensures Entry(ApplyAll(router, store, cmds).1[k]).Instead?
    ensures ArrayFrom(router, store, cmds, entries)
         == (ApplyAll(router, store, cmds[..SliceEnd(k, |cmds|)]).0, Entry(ApplyAll(router, store, cmds).1[k]).frame)
    decreases |cmds|
  {
    hide ApplyAll, FoldArray, Entry, AllFound, Frames, SliceEnd;
    var n := SliceLength(|cmds|);
    var (mid, first) := ApplyAll(router, store, cmds[..n]);
    var (after, second) := ApplyAll(router, mid, cmds[n..]);
    FirstSlice(router, store, cmds);
    if k < n {
      assert (first + second)[..k] == first[..k];
      FoldOfOther(first, k);
      FirstSliceEnds(k, |cmds|);
    } else {
      assert (first + second)[..k] == first + second[..k - n];
      FoundJoins(first, second[..k - n]);
      FoldOfFound(first);
      ArrayOfOther(router, mid, cmds[n..], entries + Frames(first), k - n);
      var end := SliceEnd(k - n, |cmds| - n);
      SliceShifts(k, |cmds|);
      assert cmds[..n + end] == cmds[..n] + cmds[n..][..end];
      ApplyAllJoins(router, store, cmds[..n], cmds[n..][..end]);
    }
  }

  /** A bounded multi-key read on its own is its commands run in order and their replies folded. */
  lemma BoundedArrayIsOneFold<S, C>(router: Router<S, C>, store: S, cmds: seq<C>)
    requires |cmds| <= CHUNK_COMMANDS
    ensures var (after, replies) := ApplyAll(router, store, cmds);
            ArrayFrom(router, store, cmds, []) == (after, FoldFrame(FoldArray(replies, |cmds|)))
  {
    hide FoldArray;
    if cmds != [] {
      assert cmds[..|cmds|] == cmds && cmds[|cmds|..] == [];
      var frames: seq<Frame> := [];
      var part := FoldArray(ApplyAll(router, store, cmds).1, |cmds|);
      if part.Entries? {
        assert frames + part.frames == part.frames;
      }
    } else {
      EmptyFold();
    }
  }

  lemma EmptyFold()
    ensures FoldArray([], 0) == Entries([])
  {
  }
}
