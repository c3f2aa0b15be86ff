/**
 A pool of executors behind the router: a batch is scattered by executor, run by all of them at
 once in any interleaving, and gathered by position. Executors share no key, so it comes to what
 running the batch in order comes to.
 */
module Pools {
  import opened Basics
  import opened Routing

  /** Which executor a command belongs to, if any, and what an executor does with one. */
  datatype Pool<!E, !C> = Pool(route: C -> Option<nat>, run: (E, C) -> (E, Reply))

  predicate Owns<E, C>(pool: Pool<E, C>, executors: nat, c: C, e: nat)
  {
    e < executors && pool.route(c) == Some(e)
  }

  predicate Routable<E, C>(pool: Pool<E, C>, executors: nat, c: C)
  {
    pool.route(c).Some? && pool.route(c).value < executors
  }

  /** One command, on the executor it belongs to. */
  function ApplyTo<E, C>(pool: Pool<E, C>, store: seq<E>, c: C): (seq<E>, Reply)
  {
    if !Routable(pool, |store|, c) then (store, Unavailable())
    else
      var e := pool.route(c).value;
      var (state, reply) := pool.run(store[e], c);
      (store[e := state], reply)
  }

  // ---------- Scattering ----------

  /** The commands of a batch that belong to an executor, in batch order. */
  function Bucket<E, C>(pool: Pool<E, C>, executors: nat, cmds: seq<C>, e: nat): seq<C>
  {
    if cmds == [] then []
    else
      var n := |cmds| - 1;
      Bucket(pool, executors, cmds[..n], e) + if Owns(pool, executors, cmds[n], e) then [cmds[n]] else []
  }

  /** Where a command's reply will be found: its executor, and how many of that executor's
      commands come before it. */
  function Place<E, C>(pool: Pool<E, C>, executors: nat, cmds: seq<C>, i: nat): Option<(nat, nat)>
    requires i < |cmds|
  {
    if !Routable(pool, executors, cmds[i]) then None
    else
      var e := pool.route(cmds[i]).value;
      Some((e, |Bucket(pool, executors, cmds[..i], e)|))
  }

  /** One pass over the batch fills every executor's bucket and records every position. */
  method Scatter<E, C>(pool: Pool<E, C>, executors: nat, cmds: seq<C>)
    returns (buckets: seq<seq<C>>, places: seq<Option<(nat, nat)>>)
    ensures |buckets| == executors && forall e :: 0 <= e < executors ==> buckets[e] == Bucket(pool, executors, cmds, e)
    ensures |places| == |cmds| && forall i :: 0 <= i < |cmds| ==> places[i] == Place(pool, executors, cmds, i)
  {
    buckets, places := seq(executors, _ => []), [];
    for i := 0 to |cmds|
      invariant |buckets| == executors && |places| == i
      invariant forall e :: 0 <= e < executors ==> buckets[e] == Bucket(pool, executors, cmds[..i], e)
      invariant forall j :: 0 <= j < i ==> places[j] == Place(pool, executors, cmds, j)
    {
      assert cmds[..i + 1][..i] == cmds[..i];
      if Routable(pool, executors, cmds[i]) {
        var e := pool.route(cmds[i]).value;
        places := places + [Some((e, |buckets[e]|))];
        buckets := buckets[e := buckets[e] + [cmds[i]]];
      } else {
        places := places + [None];
      }
    }
    assert cmds[..|cmds|] == cmds;
  }

  // ---------- Running ----------

  /** An executor's commands one after another. */
  function RunAll<E, C>(pool: Pool<E, C>, state: E, cmds: seq<C>): (r: (E, seq<Reply>))
    ensures |r.1| == |cmds|
  {
    if cmds == [] then (state, [])
    else
      var n := |cmds| - 1;
      var (before, replies) := RunAll(pool, state, cmds[..n]);
      var (after, reply) := pool.run(before, cmds[n]);
      (after, replies + [reply])
  }

  /** An executor part of the way through its bucket. */
  datatype Worker<!E, !C> = Worker(state: E, bucket: seq<C>, answers: seq<Reply>)

  /** Some executor runs its next command. */
  function Tick<E, C>(pool: Pool<E, C>, workers: seq<Worker<E, C>>, e: nat): seq<Worker<E, C>>
    requires e < |workers| && |workers[e].answers| < |workers[e].bucket|
  {
    var w := workers[e];
    var (state, reply) := pool.run(w.state, w.bucket[|w.answers|]);
    workers[e := Worker(state, w.bucket, w.answers + [reply])]
  }

  /** A schedule that runs every bucket to its end, one command at a time in any order. */
  predicate Completes<E, C>(pool: Pool<E, C>, workers: seq<Worker<E, C>>, schedule: seq<nat>)
    decreases |schedule|
  {
    if schedule == [] then forall e :: 0 <= e < |workers| ==> |workers[e].answers| == |workers[e].bucket|
    else
      && schedule[0] < |workers| && |workers[schedule[0]].answers| < |workers[schedule[0]].bucket|
      && Completes(pool, Tick(pool, workers, schedule[0]), schedule[1..])
  }

  function Final<E, C>(pool: Pool<E, C>, workers: seq<Worker<E, C>>, schedule: seq<nat>): seq<Worker<E, C>>
    requires Completes(pool, workers, schedule)
    decreases |schedule|
  {
    if schedule == [] then workers else Final(pool, Tick(pool, workers, schedule[0]), schedule[1..])
  }

  /** A worker has done what running the front of its bucket does. */
  ghost predicate OnCourse<E, C>(pool: Pool<E, C>, store: seq<E>, workers: seq<Worker<E, C>>)
  {
    && |workers| == |store|
    && forall e :: 0 <= e < |store| ==>
         && |workers[e].answers| <= |workers[e].bucket|
         && RunAll(pool, store[e], workers[e].bucket[..|workers[e].answers|]) == (workers[e].state, workers[e].answers)
  }

  lemma TickKeepsCourse<E, C>(pool: Pool<E, C>, store: seq<E>, workers: seq<Worker<E, C>>, e: nat)
    requires OnCourse(pool, store, workers) && e < |workers| && |workers[e].answers| < |workers[e].bucket|
    ensures OnCourse(pool, store, Tick(pool, workers, e))
  {
    var n := |workers[e].answers|;
    assert workers[e].bucket[..n + 1][..n] == workers[e].bucket[..n];
  }

  /** In every interleaving each executor ends where running its own bucket ends. */
  lemma {:induction false} EveryScheduleAgrees<E, C>(pool: Pool<E, C>, store: seq<E>, workers: seq<Worker<E, C>>,
                                                     schedule: seq<nat>)
    requires OnCourse(pool, store, workers) && Completes(pool, workers, schedule)
    ensures var final := Final(pool, workers, schedule);
            && |final| == |store|
            && forall e :: 0 <= e < |store| ==>
                 final[e].bucket == workers[e].bucket
                 && RunAll(pool, store[e], workers[e].bucket) == (final[e].state, final[e].answers)
    decreases |schedule|
  {
    hide RunAll;
    if schedule == [] {
      forall e | 0 <= e < |store|
        ensures RunAll(pool, store[e], workers[e].bucket) == (workers[e].state, workers[e].answers)
      {
        assert workers[e].bucket[..|workers[e].answers|] == workers[e].bucket;
      }
    } else {
      TickKeepsCourse(pool, store, workers, schedule[0]);
      EveryScheduleAgrees(pool, store, Tick(pool, workers, schedule[0]), schedule[1..]);
    }
  }

  // ---------- Gathering ----------

  /** The reply a recorded position leads to. */
  function ReplyAt(answers: seq<seq<Reply>>, place: Option<(nat, nat)>): Reply
  {
    if place.Some? && place.value.0 < |answers| && place.value.1 < |answers[place.value.0]|
    then answers[place.value.0][place.value.1] else Unavailable()
  }

  /** The replies of a batch in batch order, each taken from its recorded position: a position
      already taken from has none left. */
  method Gather(answers: seq<seq<Reply>>, places: seq<Option<(nat, nat)>>) returns (replies: seq<Reply>)
    ensures |replies| == |places|
    ensures forall i :: 0 <= i < |places| ==>
              replies[i] == if places[i] in places[..i] then Unavailable() else ReplyAt(answers, places[i])
  {
    hide Unavailable, Untaken, ReplyAt;
    replies := [];
    var left := seq(|answers|, e requires 0 <= e < |answers| => Whole(answers[e]));
    AllUntaken(answers, left);
    for i := 0 to |places|
      invariant |replies| == i && Untaken(answers, left, places[..i])
      invariant forall j :: 0 <= j < i ==>
                  replies[j] == if places[j] in places[..j] then Unavailable() else ReplyAt(answers, places[j])
    {
      assert places[..i + 1] == places[..i] + [places[i]];
      var reply;
      reply, left := TakeAt(left, places[i], answers, places[..i]);
      replies := replies + [reply];
    }
  }

  /** One reply taken from its position, if it is there and still untaken. */
  method TakeAt(left: seq<seq<Option<Reply>>>, place: Option<(nat, nat)>, ghost answers: seq<seq<Reply>>,
                ghost taken: seq<Option<(nat, nat)>>)
    returns (reply: Reply, left': seq<seq<Option<Reply>>>)
    requires Untaken(answers, left, taken)
    ensures reply == if place in taken then Unavailable() else ReplyAt(answers, place)
    ensures Untaken(answers, left', taken + [place])
  {
    hide Unavailable;
    reply, left' := Unavailable(), left;
    if place.Some? {
      var (e, k) := place.value;
      if e < |left| && k < |left[e]| && left[e][k].Some? {
        reply := left[e][k].value;
        left' := left[e := left[e][k := None]];
      }
    }
  }

  lemma AllUntaken(answers: seq<seq<Reply>>, left: seq<seq<Option<Reply>>>)
    requires |left| == |answers| && forall e :: 0 <= e < |left| ==> left[e] == Whole(answers[e])
    ensures Untaken(answers, left, [])
  {
  }

  function Whole(answers: seq<Reply>): (r: seq<Option<Reply>>)
    ensures |r| == |answers| && forall k :: 0 <= k < |r| ==> r[k] == Some(answers[k])
  {
    seq(|answers|, k requires 0 <= k < |answers| => Some(answers[k]))
  }

  /** What is left of the answers once some places were taken from. */
  ghost predicate Untaken(answers: seq<seq<Reply>>, left: seq<seq<Option<Reply>>>, taken: seq<Option<(nat, nat)>>)
  {
    && |left| == |answers|
    && forall e :: 0 <= e < |left| ==>
         && |left[e]| == |answers[e]|
         && forall k :: 0 <= k < |left[e]| ==>
              left[e][k] == if Some((e, k)) in taken then None else Some(answers[e][k])
  }

  // ---------- In order ----------

  /** The batch answered one dispatch at a time. */
  function InTurn<E, C>(pool: Pool<E, C>, store: seq<E>, cmds: seq<C>): (seq<E>, seq<Reply>)
  {
    if cmds == [] then (store, [])
    else
      var n := |cmds| - 1;
      var (before, replies) := InTurn(pool, store, cmds[..n]);
      var (after, reply) := ApplyTo(pool, before, cmds[n]);
      (after, replies + [reply])
  }

  /** The reply to a command is the one its executor gives it in its own bucket. */
  ghost predicate Answers<E, C>(pool: Pool<E, C>, store: seq<E>, cmds: seq<C>, i: nat, reply: Reply)
    requires i < |cmds|
  {
    var place := Place(pool, |store|, cmds, i);
    if place.None? then reply == Unavailable()
    else
      var (e, k) := place.value;
      var own := RunAll(pool, store[e], Bucket(pool, |store|, cmds, e)).1;
      k < |own| && reply == own[k]
  }

  lemma AnswersStay<E, C>(pool: Pool<E, C>, store: seq<E>, cmds: seq<C>, i: nat, reply: Reply)
    requires i < |cmds| - 1 && Answers(pool, store, cmds[..|cmds| - 1], i, reply)
    ensures Answers(pool, store, cmds, i, reply)
  {
    hide Unavailable;
    var n := |cmds| - 1;
    assert cmds[..n][..i] == cmds[..i];
    if Routable(pool, |store|, cmds[i]) {
      var e := pool.route(cmds[i]).value;
      BucketPushes(pool, |store|, cmds, e);
      if Owns(pool, |store|, cmds[n], e) {
        RunAllPushes(pool, store[e], Bucket(pool, |store|, cmds[..n], e), cmds[n]);
      }
    }
  }

  lemma BucketPushes<E, C>(pool: Pool<E, C>, executors: nat, cmds: seq<C>, e: nat)
    requires cmds != []
    ensures var n := |cmds| - 1;
            var front := Bucket(pool, executors, cmds[..n], e);
            Bucket(pool, executors, cmds, e) == if Owns(pool, executors, cmds[n], e) then front + [cmds[n]] else front
  {
    var front := Bucket(pool, executors, cmds[..|cmds| - 1], e);
    assert front + [] == front;
  }

  lemma RunAllPushes<E, C>(pool: Pool<E, C>, state: E, cmds: seq<C>, c: C)
    ensures var (before, replies) := RunAll(pool, state, cmds);
            var (after, reply) := pool.run(before, c);
            RunAll(pool, state, cmds + [c]) == (after, replies + [reply])
  {
    assert (cmds + [c])[..|cmds|] == cmds;
  }

  /** Running a batch in order leaves every executor where its own bucket leaves it, and answers
      every command what its executor answers it. */
  lemma {:induction false} InOrderIsByExecutor<E, C>(pool: Pool<E, C>, store: seq<E>, cmds: seq<C>)
    ensures var (after, replies) := InTurn(pool, store, cmds);
            && |after| == |store| && |replies| == |cmds|
            && (forall e :: 0 <= e < |store| ==> after[e] == RunAll(pool, store[e], Bucket(pool, |store|, cmds, e)).0)
            && (forall i :: 0 <= i < |cmds| ==> Answers(pool, store, cmds, i, replies[i]))
    decreases |cmds|
  {
    hide Answers, RunAll, Bucket, ApplyTo;
    if cmds != [] {
      var n := |cmds| - 1;
      InOrderIsByExecutor(pool, store, cmds[..n]);
      var (before, replies) := InTurn(pool, store, cmds[..n]);
      forall i | 0 <= i < n ensures Answers(pool, store, cmds, i, replies[i]) {
        AnswersStay(pool, store, cmds, i, replies[i]);
      }
      LastAnswers(pool, store, cmds, before);
      LastMoves(pool, store, cmds, before);
    } else {
      NothingRuns(pool, store);
    }
  }

  lemma NothingRuns<E, C>(pool: Pool<E, C>, store: seq<E>)
    ensures forall e :: 0 <= e < |store| ==> store[e] == RunAll(pool, store[e], Bucket(pool, |store|, [], e)).0
  {
  }

  lemma LastMoves<E, C>(pool: Pool<E, C>, store: seq<E>, cmds: seq<C>, before: seq<E>)
    requires cmds != [] && |before| == |store|
    requires forall e :: 0 <= e < |store| ==>
               before[e] == RunAll(pool, store[e], Bucket(pool, |store|, cmds[..|cmds| - 1], e)).0
    ensures var after := ApplyTo(pool, before, cmds[|cmds| - 1]).0;
            && |after| == |store|
            && forall e :: 0 <= e < |store| ==> after[e] == RunAll(pool, store[e], Bucket(pool, |store|, cmds, e)).0
  {
    hide RunAll, Bucket, Unavailable;
    var n := |cmds| - 1;
    var after := ApplyTo(pool, before, cmds[n]).0;
    forall e | 0 <= e < |store| ensures after[e] == RunAll(pool, store[e], Bucket(pool, |store|, cmds, e)).0 {
      BucketPushes(pool, |store|, cmds, e);
      RunAllPushes(pool, store[e], Bucket(pool, |store|, cmds[..n], e), cmds[n]);
    }
  }

  lemma LastAnswers<E, C>(pool: Pool<E, C>, store: seq<E>, cmds: seq<C>, before: seq<E>)
    requires cmds != [] && |before| == |store|
    requires forall e :: 0 <= e < |store| ==>
               before[e] == RunAll(pool, store[e], Bucket(pool, |store|, cmds[..|cmds| - 1], e)).0
    ensures Answers(pool, store, cmds, |cmds| - 1, ApplyTo(pool, before, cmds[|cmds| - 1]).1)
  {
    hide Unavailable;
    var n := |cmds| - 1;
    if Routable(pool, |store|, cmds[n]) {
      var e := pool.route(cmds[n]).value;
      BucketPushes(pool, |store|, cmds, e);
      RunAllPushes(pool, store[e], Bucket(pool, |store|, cmds[..n], e), cmds[n]);
    }
  }

  // ---------- The grouped dispatch ----------

  /** Executors as a batch is handed to them. */
  function Started<E, C>(pool: Pool<E, C>, store: seq<E>, cmds: seq<C>): seq<Worker<E, C>>
  {
    seq(|store|, e requires 0 <= e < |store| => Worker(store[e], Bucket(pool, |store|, cmds, e), []))
  }

  /** Scattered, run by the schedule, and gathered: the states the executors end in, and for each
      command the reply its position leads to. */
  function Grouped<E, C>(pool: Pool<E, C>, store: seq<E>, cmds: seq<C>, schedule: seq<nat>): (seq<E>, seq<Reply>)
    requires Completes(pool, Started(pool, store, cmds), schedule)
  {
    var final := Final(pool, Started(pool, store, cmds), schedule);
    var answers := seq(|final|, e requires 0 <= e < |final| => final[e].answers);
    (seq(|final|, e requires 0 <= e < |final| => final[e].state),
     seq(|cmds|, i requires 0 <= i < |cmds| => ReplyAt(answers, Place(pool, |store|, cmds, i))))
  }

  lemma StartsOnCourse<E, C>(pool: Pool<E, C>, store: seq<E>, cmds: seq<C>)
    ensures OnCourse(pool, store, Started(pool, store, cmds))
  {
    hide Bucket;
    var workers := Started(pool, store, cmds);
    forall e | 0 <= e < |store|
      ensures RunAll(pool, store[e], workers[e].bucket[..0]) == (workers[e].state, workers[e].answers)
    {
      assert workers[e].bucket[..0] == [];
    }
  }

  lemma AnswerIs<E, C>(pool: Pool<E, C>, store: seq<E>, cmds: seq<C>, i: nat, answers: seq<seq<Reply>>, reply: Reply)
    requires i < |cmds| && |answers| == |store| && Answers(pool, store, cmds, i, reply)
    requires forall e :: 0 <= e < |store| ==> answers[e] == RunAll(pool, store[e], Bucket(pool, |store|, cmds, e)).1
    ensures ReplyAt(answers, Place(pool, |store|, cmds, i)) == reply
  {
    hide Unavailable, RunAll, Bucket;
  }

  /** Whatever the interleaving, a grouped batch comes to its commands dispatched one at a time. */
  lemma GroupedIsInTurn<E, C>(pool: Pool<E, C>, store: seq<E>, cmds: seq<C>, schedule: seq<nat>)
    requires Completes(pool, Started(pool, store, cmds), schedule)
    ensures Grouped(pool, store, cmds, schedule) == InTurn(pool, store, cmds)
  {
    hide RunAll, Bucket, Completes, Final, Unavailable, Answers, InTurn;
    var workers := Started(pool, store, cmds);
    StartsOnCourse(pool, store, cmds);
    EveryScheduleAgrees(pool, store, workers, schedule);
    var final := Final(pool, workers, schedule);
    var answers := seq(|final|, e requires 0 <= e < |final| => final[e].answers);
    InOrderIsByExecutor(pool, store, cmds);
    var (after, expected) := InTurn(pool, store, cmds);
    var (moved, replies) := Grouped(pool, store, cmds, schedule);
    forall i | 0 <= i < |cmds| ensures replies[i] == expected[i] {
      AnswerIs(pool, store, cmds, i, answers, expected[i]);
    }
    assert moved == after;
    assert replies == expected;
  }

  // ---------- Executors that are gone ----------

  /** Whether a command belongs to an executor that is gone. */
  predicate Stranded<E, C>(pool: Pool<E, C>, lost: set<nat>, c: C)
  {
    pool.route(c).Some? && pool.route(c).value in lost
  }

  /** A pool some of whose executors take no share: what would go to them goes nowhere. */
  function Without<E, C>(pool: Pool<E, C>, lost: set<nat>): Pool<E, C>
  {
    Pool((c: C) => if Stranded(pool, lost, c) then None else pool.route(c), pool.run)
  }

  /** An executor that is gone gets nothing, and the others get what they would have got. */
  lemma {:induction false} BucketWithout<E, C>(pool: Pool<E, C>, lost: set<nat>, executors: nat, cmds: seq<C>, e: nat)
    ensures Bucket(Without(pool, lost), executors, cmds, e)
         == if e in lost then [] else Bucket(pool, executors, cmds, e)
    decreases |cmds|
  {
    if cmds != [] {
      BucketWithout(pool, lost, executors, cmds[..|cmds| - 1], e);
    }
  }

  /** A position at an executor that is gone leads to no reply, and every other to the same one. */
  lemma ReplyWithout<E, C>(pool: Pool<E, C>, lost: set<nat>, executors: nat, cmds: seq<C>, i: nat,
                           answers: seq<seq<Reply>>)
    requires i < |cmds| && |answers| == executors
    requires forall e :: 0 <= e < executors && e in lost ==> answers[e] == []
    ensures ReplyAt(answers, Place(pool, executors, cmds, i))
         == ReplyAt(answers, Place(Without(pool, lost), executors, cmds, i))
  {
    hide Bucket, Unavailable;
    if Routable(pool, executors, cmds[i]) {
      BucketWithout(pool, lost, executors, cmds[..i], pool.route(cmds[i]).value);
    }
  }

  /** The grouped dispatch: whichever executors refuse their share, and however the others
      interleave, the store and the replies are those of the batch dispatched one command at a time,
      with a command for an executor that is gone unavailable in its place. */
  method DispatchMany<E, C>(pool: Pool<E, C>, lost: set<nat>, store: seq<E>, cmds: seq<C>, schedule: seq<nat>)
    returns (store': seq<E>, replies: seq<Reply>)
    requires Completes(Without(pool, lost), Started(Without(pool, lost), store, cmds), schedule)
    ensures (store', replies) == Grouped(Without(pool, lost), store, cmds, schedule)
    ensures (store', replies) == InTurn(Without(pool, lost), store, cmds)
  {
    hide RunAll, Bucket, Completes, Final, Unavailable, InTurn, Place, Without;
    ghost var rest := Without(pool, lost);
    var buckets, places := Scatter(pool, |store|, cmds);
    var workers := Sent(store, buckets, lost);
    forall e | 0 <= e < |store| ensures workers[e].bucket == Bucket(rest, |store|, cmds, e) {
      BucketWithout(pool, lost, |store|, cmds, e);
    }
    assert workers == Started(rest, store, cmds);
    var final := Final(Without(pool, lost), workers, schedule);
    store' := seq(|final|, e requires 0 <= e < |final| => final[e].state);
    var answers := seq(|final|, e requires 0 <= e < |final| => final[e].answers);
    replies := Gather(answers, places);
    LostAnswerNothing(pool, lost, store, cmds, schedule);
    forall i | 0 <= i < |cmds| ensures replies[i] == ReplyAt(answers, Place(rest, |store|, cmds, i)) {
      ReplyWithout(pool, lost, |store|, cmds, i, answers);
      if places[i] in places[..i] {
        var j :| 0 <= j < i && places[..i][j] == places[i];
        PlacesDiffer(pool, |store|, cmds, j, i);
      }
    }
    assert replies == Grouped(rest, store, cmds, schedule).1;
    GroupedIsInTurn(rest, store, cmds, schedule);
  }

  /** Every executor as its share is sent, or as it is when the share is refused. */
  function Sent<E, C>(store: seq<E>, buckets: seq<seq<C>>, lost: set<nat>): (r: seq<Worker<E, C>>)
    requires |buckets| == |store|
    ensures |r| == |store|
    ensures forall e :: 0 <= e < |r| ==> r[e] == Worker(store[e], if e in lost then [] else buckets[e], [])
  {
    seq(|store|, e requires 0 <= e < |store| => Worker(store[e], if e in lost then [] else buckets[e], []))
  }

  lemma LostAnswerNothing<E, C>(pool: Pool<E, C>, lost: set<nat>, store: seq<E>, cmds: seq<C>, schedule: seq<nat>)
    requires Completes(Without(pool, lost), Started(Without(pool, lost), store, cmds), schedule)
    ensures var final := Final(Without(pool, lost), Started(Without(pool, lost), store, cmds), schedule);
            |final| == |store| && forall e :: 0 <= e < |final| && e in lost ==> final[e].answers == []
  {
    hide Completes, Final, Bucket, Without;
    var rest := Without(pool, lost);
    StartsOnCourse(rest, store, cmds);
    EveryScheduleAgrees(rest, store, Started(rest, store, cmds), schedule);
    forall e | 0 <= e < |store| && e in lost ensures Bucket(rest, |store|, cmds, e) == [] {
      BucketWithout(pool, lost, |store|, cmds, e);
    }
  }

  /** Executors that are gone cost a batch their own commands and nothing else: they stay as they
      were and their commands are unavailable, while every other executor ends where it would have
      and every other command is answered what it would have been. */
  lemma OthersAreServed<E, C>(pool: Pool<E, C>, lost: set<nat>, store: seq<E>, cmds: seq<C>)
    ensures var (after, replies) := InTurn(Without(pool, lost), store, cmds);
            var (whole, expected) := InTurn(pool, store, cmds);
            && |after| == |whole| == |store| && |replies| == |expected| == |cmds|
            && (forall e :: 0 <= e < |store| ==> after[e] == if e in lost then store[e] else whole[e])
            && (forall i :: 0 <= i < |cmds| ==>
                  replies[i] == if Stranded(pool, lost, cmds[i]) then Unavailable() else expected[i])
  {
    hide InTurn, Answers, Unavailable, Bucket, RunAll, Without;
    var rest := Without(pool, lost);
    InOrderIsByExecutor(pool, store, cmds);
    InOrderIsByExecutor(rest, store, cmds);
    var (after, replies) := InTurn(rest, store, cmds);
    var (whole, expected) := InTurn(pool, store, cmds);
    forall e | 0 <= e < |store| ensures after[e] == if e in lost then store[e] else whole[e] {
      BucketWithout(pool, lost, |store|, cmds, e);
      SameRun(pool, lost, store[e], Bucket(rest, |store|, cmds, e));
      NoRun(pool, store[e]);
    }
    forall i | 0 <= i < |cmds|
      ensures replies[i] == if Stranded(pool, lost, cmds[i]) then Unavailable() else expected[i]
    {
      AnswersWithout(pool, lost, store, cmds, i, replies[i], expected[i]);
    }
  }

  lemma NoRun<E, C>(pool: Pool<E, C>, state: E)
    ensures RunAll(pool, state, []) == (state, [])
  {
  }

  lemma {:induction false} SameRun<E, C>(pool: Pool<E, C>, lost: set<nat>, state: E, cmds: seq<C>)
    ensures RunAll(Without(pool, lost), state, cmds) == RunAll(pool, state, cmds)
    decreases |cmds|
  {
    if cmds != [] {
      SameRun(pool, lost, state, cmds[..|cmds| - 1]);
    }
  }

  lemma AnswersWithout<E, C>(pool: Pool<E, C>, lost: set<nat>, store: seq<E>, cmds: seq<C>, i: nat,
                             reply: Reply, expected: Reply)
    requires i < |cmds|
    requires Answers(Without(pool, lost), store, cmds, i, reply) && Answers(pool, store, cmds, i, expected)
    ensures reply == if Stranded(pool, lost, cmds[i]) then Unavailable() else expected
  {
    hide Bucket, RunAll, Unavailable;
    if !Stranded(pool, lost, cmds[i]) && Routable(pool, |store|, cmds[i]) {
      var e := pool.route(cmds[i]).value;
      BucketWithout(pool, lost, |store|, cmds[..i], e);
      BucketWithout(pool, lost, |store|, cmds, e);
      SameRun(pool, lost, store[e], Bucket(pool, |store|, cmds, e));
    }
  }

  /** No two commands are answered from one position. */
  lemma PlacesDiffer<E, C>(pool: Pool<E, C>, executors: nat, cmds: seq<C>, j: nat, i: nat)
    requires j < i < |cmds| && Place(pool, executors, cmds, j) == Place(pool, executors, cmds, i)
    ensures Place(pool, executors, cmds, i) == None
  {
    hide Bucket;
    if Routable(pool, executors, cmds[i]) {
      var e := pool.route(cmds[i]).value;
      assert cmds[..i][..j] == cmds[..j] && cmds[..i][j] == cmds[j];
      BucketGrows(pool, executors, cmds[..i], j, e);
    }
  }

  lemma {:induction false} BucketGrows<E, C>(pool: Pool<E, C>, executors: nat, cmds: seq<C>, i: nat, e: nat)
    requires i < |cmds| && Owns(pool, executors, cmds[i], e)
    ensures |Bucket(pool, executors, cmds[..i], e)| < |Bucket(pool, executors, cmds, e)|
    decreases |cmds|
  {
    var n := |cmds| - 1;
    if i < n {
      assert cmds[..n][..i] == cmds[..i];
      BucketGrows(pool, executors, cmds[..n], i, e);
    }
  }

  // ---------- A faithful router ----------

  /** A choice of schedule for every batch that runs it to its end. */
  ghost predicate Schedules<E(!new), C(!new)>(pool: Pool<E, C>, choose: (seq<E>, seq<C>) -> seq<nat>)
  {
    forall store, cmds :: Completes(pool, Started(pool, store, cmds), choose(store, cmds))
  }

  /** A pool as a router: a batch is dispatched grouped, by whatever schedule the executors take. */
  function AsRouter<E, C>(pool: Pool<E, C>, choose: (seq<E>, seq<C>) -> seq<nat>): Router<seq<E>, C>
  {
    Router((store: seq<E>, c: C) => ApplyTo(pool, store, c),
           (store: seq<E>, cmds: seq<C>) =>
             if Completes(pool, Started(pool, store, cmds), choose(store, cmds))
             then Grouped(pool, store, cmds, choose(store, cmds)) else (store, []))
  }

  /** However its executors interleave, a pool is a faithful router. */
  lemma PoolIsFaithful<E(!new), C(!new)>(pool: Pool<E, C>, choose: (seq<E>, seq<C>) -> seq<nat>)
    requires Schedules(pool, choose)
    ensures Faithful(AsRouter(pool, choose))
  {
    hide ApplyTo, Completes, Grouped, InTurn, Routing.ApplyAll;
    var router := AsRouter(pool, choose);
    forall store: seq<E>, cmds: seq<C> ensures router.many(store, cmds) == ApplyAll(router, store, cmds) {
      assert Completes(pool, Started(pool, store, cmds), choose(store, cmds));
      GroupedIsInTurn(pool, store, cmds, choose(store, cmds));
      InTurnIsApplyAll(pool, choose, store, cmds);
    }
  }

  lemma {:induction false} InTurnIsApplyAll<E, C>(pool: Pool<E, C>, choose: (seq<E>, seq<C>) -> seq<nat>,
                                                  store: seq<E>, cmds: seq<C>)
    ensures InTurn(pool, store, cmds) == ApplyAll(AsRouter(pool, choose), store, cmds)
    decreases |cmds|
  {
    hide ApplyTo, Completes, Grouped;
    if cmds != [] {
      InTurnIsApplyAll(pool, choose, store, cmds[..|cmds| - 1]);
    }
  }

  /** Executors one after another, each to the end of its bucket. */
  function OneByOne<E, C>(workers: seq<Worker<E, C>>, e: nat): seq<nat>
    requires e <= |workers|
    decreases |workers| - e
  {
    if e == |workers| then []
    else seq(Owing(workers[e]), _ => e) + OneByOne(workers, e + 1)
  }

  function Owing<E, C>(w: Worker<E, C>): nat
  {
    if |w.answers| <= |w.bucket| then |w.bucket| - |w.answers| else 0
  }

  /** There is a schedule for every batch. */
  lemma {:induction false} OneByOneCompletes<E, C>(pool: Pool<E, C>, workers: seq<Worker<E, C>>, e: nat)
    requires e <= |workers| && forall i :: 0 <= i < |workers| ==> |workers[i].answers| <= |workers[i].bucket|
    requires forall i :: 0 <= i < e ==> |workers[i].answers| == |workers[i].bucket|
    ensures Completes(pool, workers, OneByOne(workers, e))
    decreases |workers| - e, if e < |workers| then Owing(workers[e]) else 0
  {
    hide OneByOne;
    OneByOneStep(pool, workers, e);
    if e < |workers| {
      if Owing(workers[e]) == 0 {
        OneByOneCompletes(pool, workers, e + 1);
      } else {
        OneByOneCompletes(pool, Tick(pool, workers, e), e);
      }
    }
  }

  lemma OneByOneStep<E, C>(pool: Pool<E, C>, workers: seq<Worker<E, C>>, e: nat)
    requires e <= |workers|
    ensures e == |workers| ==> OneByOne(workers, e) == []
    ensures e < |workers| && Owing(workers[e]) == 0 ==> OneByOne(workers, e) == OneByOne(workers, e + 1)
    ensures e < |workers| && Owing(workers[e]) > 0 ==>
              var schedule := OneByOne(workers, e);
              schedule != [] && schedule[0] == e && schedule[1..] == OneByOne(Tick(pool, workers, e), e)
  {
    if e < |workers| {
      var rest := OneByOne(workers, e + 1);
      if Owing(workers[e]) == 0 {
        assert OneByOne(workers, e) == rest;
      } else {
        SameFrom(workers, Tick(pool, workers, e), e + 1);
        assert OneByOne(workers, e)[1..] == seq(Owing(workers[e]) - 1, _ => e) + rest;
      }
    }
  }

  lemma {:induction false} SameFrom<E, C>(a: seq<Worker<E, C>>, b: seq<Worker<E, C>>, e: nat)
    requires e <= |a| == |b| && forall i :: e <= i < |a| ==> a[i] == b[i]
    ensures OneByOne(a, e) == OneByOne(b, e)
    decreases |a| - e
  {
    if e < |a| {
      SameFrom(a, b, e + 1);
    }
  }

  lemma SomeScheduleCompletes<E(!new), C(!new)>(pool: Pool<E, C>)
    ensures Schedules(pool, (store, cmds) => OneByOne(Started(pool, store, cmds), 0))
  {
    hide Completes, OneByOne, Bucket;
    forall store: seq<E>, cmds: seq<C>
      ensures Completes(pool, Started(pool, store, cmds), OneByOne(Started(pool, store, cmds), 0))
    {
      OneByOneCompletes(pool, Started(pool, store, cmds), 0);
    }
  }
}
