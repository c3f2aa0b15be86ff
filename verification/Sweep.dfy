/**
 The parallel sweep as a step system: workers draw seeds from a shared counter, wait at a gate
 that holds them within a window of the lowest unreported seed, run, and send; a collector
 reports in seed order and moves the gate. Workers may panic while running and the collector
 may panic while reporting. Every interleaving of every party's atomic steps is a run.
 */
module Sweep {

  const PENDING_LIMIT: nat := 4096
  const U64_MAX: nat := 0xFFFF_FFFF_FFFF_FFFF

  datatype Worker = Drawing | Waiting(seed: nat) | Running(seed: nat) | Stopped | Panicked

  datatype Collector = Receiving | Reporting(headBefore: nat) | Done | Gone

  /** `draws` counts the draws made of the shared counter, which wraps; `dropped` holds the seeds an
      abandoned gate kept from ever beginning, `failed` those that began and will not be reported:
      their worker panicked, or the collector was gone. */
  datatype State = State(
    draws: nat,
    head: nat,
    abandoned: bool,
    workers: seq<Worker>,
    channel: seq<nat>,
    pending: set<nat>,
    expected: nat,
    reported: seq<nat>,
    collector: Collector,
    dropped: multiset<nat>,
    failed: multiset<nat>)

  /** The range swept. */
  datatype Range = Range(first: nat, last: nat)

  function Seeds(r: Range): nat
  {
    if r.first <= r.last then r.last - r.first + 1 else 0
  }

  /** How many workers are started: no more than there are seeds. */
  function Started(r: Range, workers: nat): nat
  {
    if workers < Seeds(r) then workers else Seeds(r)
  }

  /** What a sweep accepts: seed zero is no seed, and there is a seed and a worker. */
  predicate Askable(r: Range, workers: nat)
  {
    1 <= r.first <= r.last <= U64_MAX && 1 <= workers
  }

  /** The counter does not come all the way round to a seed again, which it could only in a sweep
      of over 2^63 seeds. */
  predicate StaysShort(r: Range, workers: nat)
  {
    Seeds(r) + Started(r, workers) <= U64_MAX + 1
  }

  /** The shared counter: the next draw takes its value, below the range once it has wrapped. */
  function Counter(s: State, r: Range): nat
  {
    (r.first + s.draws) % (U64_MAX + 1)
  }

  function SaturatingNext(x: nat): nat
  {
    if x < U64_MAX then x + 1 else x
  }

  datatype Action =
    | Draw(w: nat)
    | Admit(w: nat)
    | Send(w: nat)
    | Panic(w: nat)
    | Receive
    | Report
    | ReportPanics
    | Publish
    | Finish

  function Initial(r: Range, workers: nat): State
  {
    State(0, r.first, false, seq(Started(r, workers), _ => Drawing), [], {}, r.first, [], Receiving,
          multiset{}, multiset{})
  }

  predicate Ended(w: Worker)
  {
    w.Stopped? || w.Panicked?
  }

  predicate AllEnded(workers: seq<Worker>)
  {
    forall i :: 0 <= i < |workers| ==> Ended(workers[i])
  }

  /** Whether a party can take a step: a waiting worker needs the gate to let it through. */
  predicate Enabled(s: State, a: Action)
  {
    match a
    case Draw(w) => w < |s.workers| && s.workers[w].Drawing?
    case Admit(w) =>
      && w < |s.workers| && s.workers[w].Waiting?
      && (s.abandoned || s.workers[w].seed - s.head < PENDING_LIMIT)
    case Send(w) => w < |s.workers| && s.workers[w].Running?
    case Panic(w) => w < |s.workers| && s.workers[w].Running?
    case Receive => s.collector.Receiving? && s.channel != []
    case Report => s.collector.Reporting? && s.expected in s.pending
    case ReportPanics => s.collector.Reporting? && s.expected in s.pending
    case Publish => s.collector.Reporting? && s.expected !in s.pending
    case Finish => s.collector.Receiving? && s.channel == [] && AllEnded(s.workers)
  }

  function Do(s: State, r: Range, a: Action): State
    requires Enabled(s, a)
  {
    match a
    case Draw(w) =>
      var seed := Counter(s, r);
      if seed < r.first || seed > r.last then s.(draws := s.draws + 1, workers := s.workers[w := Stopped])
      else s.(draws := s.draws + 1, workers := s.workers[w := Waiting(seed)])
    case Admit(w) =>
      var seed := s.workers[w].seed;
      if s.abandoned then s.(workers := s.workers[w := Stopped], dropped := s.dropped + multiset{seed})
      else s.(workers := s.workers[w := Running(seed)])
    case Send(w) =>
      var seed := s.workers[w].seed;
      if s.collector.Gone? then s.(workers := s.workers[w := Stopped], failed := s.failed + multiset{seed})
      else s.(workers := s.workers[w := Drawing], channel := s.channel + [seed])
    case Panic(w) =>
      s.(workers := s.workers[w := Panicked], abandoned := true, failed := s.failed + multiset{s.workers[w].seed})
    case Receive =>
      s.(channel := s.channel[1..], pending := s.pending + {s.channel[0]}, collector := Reporting(s.expected))
    case Report =>
      s.(pending := s.pending - {s.expected}, reported := s.reported + [s.expected],
         expected := SaturatingNext(s.expected))
    case ReportPanics =>
      s.(pending := s.pending - {s.expected}, reported := s.reported + [s.expected],
         expected := SaturatingNext(s.expected), collector := Gone, abandoned := true)
    case Publish =>
      if s.expected != s.collector.headBefore then s.(head := s.expected, collector := Receiving)
      else s.(collector := Receiving)
    case Finish => s.(collector := Done, abandoned := true)
  }

  // ---------- Where the seeds are ----------

  predicate Holds(w: Worker, seed: nat)
  {
    (w.Waiting? || w.Running?) && w.seed == seed
  }

  /** A sum over the workers. */
  function Sum(workers: seq<Worker>, f: Worker -> nat): nat
  {
    if workers == [] then 0 else Sum(workers[..|workers| - 1], f) + f(workers[|workers| - 1])
  }

  lemma {:induction false} SumUpdate(workers: seq<Worker>, i: nat, w: Worker, f: Worker -> nat)
    requires i < |workers|
    ensures Sum(workers[i := w], f) + f(workers[i]) == Sum(workers, f) + f(w)
  {
    var n := |workers| - 1;
    if i == n {
      assert workers[i := w][..n] == workers[..n];
    } else {
      assert workers[i := w][..n] == workers[..n][i := w];
      SumUpdate(workers[..n], i, w, f);
    }
  }

  /** A sum of zeros and ones that is not zero has a one, and one that has a zero is short. */
  lemma {:induction false} SumOfOnes(workers: seq<Worker>, f: Worker -> nat)
    requires forall w :: f(w) <= 1
    ensures Sum(workers, f) > 0 <==> exists i :: 0 <= i < |workers| && f(workers[i]) == 1
    ensures Sum(workers, f) < |workers| <==> exists i :: 0 <= i < |workers| && f(workers[i]) == 0
    ensures Sum(workers, f) <= |workers|
  {
    if workers != [] {
      var n := |workers| - 1;
      SumOfOnes(workers[..n], f);
      assert forall i :: 0 <= i < n ==> workers[..n][i] == workers[i];
      if i :| 0 <= i < |workers| && f(workers[i]) == 1 {
        assert i == n || workers[..n][i] == workers[i];
      }
      if i :| 0 <= i < |workers| && f(workers[i]) == 0 {
        assert i == n || workers[..n][i] == workers[i];
      }
    }
  }

  lemma {:induction false} SumOfSame(n: nat, w: Worker, f: Worker -> nat)
    ensures Sum(seq(n, _ => w), f) == n * f(w)
  {
    if n > 0 {
      var workers: seq<Worker> := seq(n, _ => w);
      assert workers[..n - 1] == seq(n - 1, _ => w);
      SumOfSame(n - 1, w, f);
      assert n * f(w) == (n - 1) * f(w) + f(w);
    }
  }

  function HoldsOne(seed: nat): (f: Worker -> nat)
    ensures forall w :: f(w) == if Holds(w, seed) then 1 else 0
  {
    (w: Worker) => if Holds(w, seed) then 1 else 0
  }

  function EndedOne(w: Worker): nat
  {
    if Ended(w) then 1 else 0
  }

  /** How many of the range's seeds have been drawn. */
  function Drawn(s: State, r: Range): nat
  {
    if s.draws <= Seeds(r) then s.draws else Seeds(r)
  }

  /** The first seed not yet reported. */
  function Reached(s: State, r: Range): nat
  {
    r.first + |s.reported|
  }

  /** In how many places a seed is. */
  function Places(s: State, seed: nat): nat
  {
    Sum(s.workers, HoldsOne(seed)) + multiset(s.channel)[seed] + (if seed in s.pending then 1 else 0)
    + s.dropped[seed] + s.failed[seed]
  }

  /** Whether a seed is drawn and not reported. */
  predicate Owed(s: State, r: Range, seed: nat)
  {
    Reached(s, r) <= seed < r.first + Drawn(s, r)
  }

  /** Everything drawn and not reported is in exactly one place, and nothing else is anywhere. */
  ghost predicate Conserved(s: State, r: Range)
  {
    && |s.reported| <= Drawn(s, r)
    && forall seed: nat :: Places(s, seed) == if Owed(s, r, seed) then 1 else 0
  }

  /** The seeds reported are the first ones of the range, in order, each once. */
  predicate Ascending(s: State, r: Range)
  {
    && (forall i :: 0 <= i < |s.reported| ==> s.reported[i] == r.first + i)
    && s.expected == if Reached(s, r) <= U64_MAX then Reached(s, r) else U64_MAX
  }

  // ---------- The invariant ----------

  /** A worker that finds the range drawn out stops, so the counter stays short of coming round. */
  predicate DrawsOk(s: State, r: Range)
  {
    && 1 <= r.first <= r.last <= U64_MAX
    && Seeds(r) + |s.workers| <= U64_MAX + 1
    && s.draws <= Seeds(r) + Sum(s.workers, EndedOne)
  }

  /** The gate never passes the collector, which publishes what it has reported before it waits
      for more. */
  predicate GateOk(s: State)
  {
    && s.head <= s.expected
    && match s.collector
       case Receiving => s.head == s.expected && s.expected !in s.pending
       case Reporting(headBefore) => s.head == headBefore
       case Done => s.expected !in s.pending && s.channel == [] && AllEnded(s.workers)
       case Gone => true
  }

  /** Every seed that was let through the gate and not yet reported is inside its window. */
  predicate Windowed(s: State)
  {
    && (forall i :: 0 <= i < |s.workers| && s.workers[i].Running? ==> s.workers[i].seed < s.head + PENDING_LIMIT)
    && (forall i :: 0 <= i < |s.channel| ==> s.channel[i] < s.head + PENDING_LIMIT)
    && (forall x :: x in s.pending ==> x < s.head + PENDING_LIMIT)
    && (forall x :: x in s.failed ==> x < s.head + PENDING_LIMIT)
  }

  /** No worker has panicked, nor has the collector. */
  predicate Calm(s: State)
    ensures Calm(s) ==> !s.collector.Gone?
  {
    !s.collector.Gone? && forall i :: 0 <= i < |s.workers| ==> !s.workers[i].Panicked?
  }

  /** Only a panic loses a seed, and every panic opens the gate; short of one a worker stops only
      for lack of seeds. */
  predicate LossOk(s: State, r: Range)
  {
    && (!Calm(s) ==> s.abandoned)
    && (Calm(s) ==>
          && (s.abandoned ==> s.collector.Done?)
          && s.dropped == multiset{} && s.failed == multiset{}
          && forall i :: 0 <= i < |s.workers| && s.workers[i].Stopped? ==> s.draws >= Seeds(r))
  }

  ghost predicate Inv(s: State, r: Range)
  {
    && DrawsOk(s, r)
    && Ascending(s, r)
    && Conserved(s, r)
    && GateOk(s)
    && Windowed(s)
    && LossOk(s, r)
  }

  lemma InitialInv(r: Range, workers: nat)
    requires Askable(r, workers) && StaysShort(r, workers)
    ensures Inv(Initial(r, workers), r)
  {
    forall seed: nat ensures Places(Initial(r, workers), seed) == 0 {
      SumOfSame(Started(r, workers), Drawing, HoldsOne(seed));
    }
    SumOfSame(Started(r, workers), Drawing, EndedOne);
  }

  /** A draw takes the next seed of the range in turn, and none when the range is drawn out. */
  lemma DrawTakesTheNext(s: State, r: Range, w: nat)
    requires DrawsOk(s, r) && w < |s.workers| && !Ended(s.workers[w])
    ensures s.draws < Seeds(r) ==> Counter(s, r) == r.first + s.draws
    ensures s.draws >= Seeds(r) ==> Counter(s, r) < r.first || Counter(s, r) > r.last
  {
    hide Sum;
    SumOfOnes(s.workers, EndedOne);
    assert EndedOne(s.workers[w]) == 0;
    var v := r.first + s.draws;
    assert v < r.first + U64_MAX + 1;
    assert v <= U64_MAX ==> Counter(s, r) == v;
    assert v > U64_MAX ==> Counter(s, r) == v - U64_MAX - 1;
  }

  predicate ByWorker(a: Action)
  {
    a.Draw? || a.Admit? || a.Send? || a.Panic?
  }

  predicate Reports(a: Action)
  {
    a.Report? || a.ReportPanics?
  }

  lemma StepKeepsDraws(s: State, r: Range, a: Action)
    requires DrawsOk(s, r) && Enabled(s, a)
    ensures DrawsOk(Do(s, r, a), r)
  {
    hide Sum;
    if ByWorker(a) {
      SumUpdate(s.workers, a.w, Do(s, r, a).workers[a.w], EndedOne);
      DrawTakesTheNext(s, r, a.w);
    }
  }

  lemma OneMore(m: multiset<nat>, channel: seq<nat>, x: nat, seed: nat)
    ensures (m + multiset{x})[seed] == m[seed] + if x == seed then 1 else 0
    ensures multiset(channel + [x])[seed] == multiset(channel)[seed] + if x == seed then 1 else 0
  {
  }

  lemma DrawPlaces(s: State, r: Range, w: nat, seed: nat)
    requires DrawsOk(s, r) && Enabled(s, Draw(w))
    ensures Places(Do(s, r, Draw(w)), seed) == Places(s, seed)
         + if s.draws < Seeds(r) && seed == r.first + s.draws then 1 else 0
  {
    hide Sum, DrawsOk, Counter;
    SumUpdate(s.workers, w, Do(s, r, Draw(w)).workers[w], HoldsOne(seed));
    DrawTakesTheNext(s, r, w);
  }

  lemma AdmitPlaces(s: State, r: Range, w: nat, seed: nat)
    requires DrawsOk(s, r) && Enabled(s, Admit(w))
    ensures Places(Do(s, r, Admit(w)), seed) == Places(s, seed)
  {
    hide Sum, DrawsOk, Counter;
    SumUpdate(s.workers, w, Do(s, r, Admit(w)).workers[w], HoldsOne(seed));
    OneMore(s.dropped, [], s.workers[w].seed, seed);
  }

  lemma SendPlaces(s: State, r: Range, w: nat, seed: nat)
    requires DrawsOk(s, r) && Enabled(s, Send(w))
    ensures Places(Do(s, r, Send(w)), seed) == Places(s, seed)
  {
    hide Sum, DrawsOk, Counter;
    var s', sent := Do(s, r, Send(w)), s.workers[w].seed;
    SumUpdate(s.workers, w, s'.workers[w], HoldsOne(seed));
    OneMore(s.failed, s.channel, sent, seed);
    if s.collector.Gone? {
      assert s'.channel == s.channel && s'.failed == s.failed + multiset{sent};
    } else {
      assert s'.channel == s.channel + [sent] && s'.failed == s.failed;
    }
  }

  lemma PanicPlaces(s: State, r: Range, w: nat, seed: nat)
    requires DrawsOk(s, r) && Enabled(s, Panic(w))
    ensures Places(Do(s, r, Panic(w)), seed) == Places(s, seed)
  {
    hide Sum, DrawsOk, Counter;
    SumUpdate(s.workers, w, Do(s, r, Panic(w)).workers[w], HoldsOne(seed));
    OneMore(s.failed, [], s.workers[w].seed, seed);
  }

  /** A worker's step draws one seed or moves the one it holds. */
  lemma WorkerPlaces(s: State, r: Range, a: Action, seed: nat)
    requires DrawsOk(s, r) && Enabled(s, a) && ByWorker(a)
    ensures Places(Do(s, r, a), seed)
         == Places(s, seed) + if a.Draw? && s.draws < Seeds(r) && seed == r.first + s.draws then 1 else 0
  {
    hide Places, DrawsOk, Do;
    match a {
      case Draw(w) => DrawPlaces(s, r, w, seed);
      case Admit(w) => AdmitPlaces(s, r, w, seed);
      case Send(w) => SendPlaces(s, r, w, seed);
      case Panic(w) => PanicPlaces(s, r, w, seed);
    }
  }

  lemma ReceivePlaces(s: State, r: Range, seed: nat)
    requires Enabled(s, Receive) && Places(s, seed) <= 1
    ensures Places(Do(s, r, Receive), seed) == Places(s, seed)
  {
    hide Sum;
    var x: nat, rest: seq<nat> := s.channel[0], s.channel[1..];
    assert s.channel == [x] + rest;
    assert multiset(s.channel)[seed] == multiset(rest)[seed] + if x == seed then 1 else 0;
  }

  /** A collector's step moves one seed, or reports the expected one. */
  lemma CollectorPlaces(s: State, r: Range, a: Action, seed: nat)
    requires Enabled(s, a) && !ByWorker(a)
    requires Places(s, seed) <= 1
    ensures Places(Do(s, r, a), seed) == Places(s, seed) - if Reports(a) && seed == s.expected then 1 else 0
  {
    hide Sum;
    if a.Receive? {
      ReceivePlaces(s, r, seed);
    }
  }

  /** The seed about to be reported is the first unreported one, even where the count saturates. */
  lemma ReportsTheFirst(s: State, r: Range)
    requires Ascending(s, r) && Conserved(s, r) && r.last <= U64_MAX && s.expected in s.pending
    ensures s.expected == Reached(s, r) && |s.reported| < Drawn(s, r)
  {
    hide Sum;
    assert Places(s, s.expected) == if Owed(s, r, s.expected) then 1 else 0;
  }

  lemma StepConserves(s: State, r: Range, a: Action)
    requires DrawsOk(s, r) && Ascending(s, r) && Conserved(s, r) && Enabled(s, a)
    ensures Conserved(Do(s, r, a), r)
  {
    hide Sum, Places, Counter;
    var s' := Do(s, r, a);
    if Reports(a) {
      ReportsTheFirst(s, r);
    }
    forall seed: nat ensures Places(s', seed) == if Owed(s', r, seed) then 1 else 0 {
      assert Places(s, seed) == if Owed(s, r, seed) then 1 else 0;
      if ByWorker(a) {
        WorkerPlaces(s, r, a, seed);
      } else {
        CollectorPlaces(s, r, a, seed);
      }
    }
  }

  lemma StepAscends(s: State, r: Range, a: Action)
    requires Inv(s, r) && Enabled(s, a)
    ensures Ascending(Do(s, r, a), r)
  {
    hide Sum, Conserved, Counter;
    if Reports(a) {
      ReportsTheFirst(s, r);
    }
  }

  /** A seed in any place is drawn and not reported. */
  lemma PlacedIsOwed(s: State, r: Range, seed: nat)
    requires Conserved(s, r) && Places(s, seed) > 0
    ensures Owed(s, r, seed)
  {
    hide Places;
    assert Places(s, seed) == if Owed(s, r, seed) then 1 else 0;
  }

  lemma HeldIsOwed(s: State, r: Range, w: nat)
    requires Conserved(s, r) && w < |s.workers| && (s.workers[w].Waiting? || s.workers[w].Running?)
    ensures Owed(s, r, s.workers[w].seed)
  {
    hide Sum, Conserved;
    var f := HoldsOne(s.workers[w].seed);
    assert f(s.workers[w]) == 1;
    SumOfOnes(s.workers, f);
    PlacedIsOwed(s, r, s.workers[w].seed);
  }

  lemma StepKeepsGate(s: State, r: Range, a: Action)
    requires Inv(s, r) && Enabled(s, a)
    ensures GateOk(Do(s, r, a))
  {
    hide Sum, Conserved, Windowed, LossOk, Counter, DrawsOk;
  }

  lemma StepKeepsWindow(s: State, r: Range, a: Action)
    requires Inv(s, r) && Enabled(s, a)
    ensures Windowed(Do(s, r, a))
  {
    hide Sum, Conserved, LossOk, Counter, DrawsOk, Ascending;
    if ByWorker(a) {
      WorkerKeepsWindow(s, r, a);
    }
  }

  lemma WorkerKeepsWindow(s: State, r: Range, a: Action)
    requires Windowed(s) && Enabled(s, a) && ByWorker(a)
    ensures Windowed(Do(s, r, a))
  {
    hide Counter;
  }

  /** A panic is never forgotten. */
  lemma CalmBefore(s: State, r: Range, a: Action)
    requires Enabled(s, a)
    ensures Calm(Do(s, r, a)) ==> Calm(s) && !a.Panic? && !a.ReportPanics?
  {
    hide Counter;
    var s' := Do(s, r, a);
    assert forall i :: 0 <= i < |s.workers| && s.workers[i].Panicked? ==> s'.workers[i].Panicked?;
    assert a.Panic? ==> s'.workers[a.w].Panicked?;
  }

  lemma StepKeepsLoss(s: State, r: Range, a: Action)
    requires Inv(s, r) && Enabled(s, a)
    ensures LossOk(Do(s, r, a), r)
  {
    hide Sum, Conserved, Windowed, Counter, DrawsOk, Calm, Ascending;
    CalmBefore(s, r, a);
    if a.Draw? {
      DrawTakesTheNext(s, r, a.w);
    }
    if !Calm(Do(s, r, a)) && Calm(s) {
      OnlyPanicsUnsettle(s, r, a);
    }
  }

  lemma OnlyPanicsUnsettle(s: State, r: Range, a: Action)
    requires Enabled(s, a) && Calm(s) && !Calm(Do(s, r, a))
    ensures a.Panic? || a.ReportPanics?
  {
    hide Counter;
  }

  lemma StepKeepsInv(s: State, r: Range, a: Action)
    requires Inv(s, r) && Enabled(s, a)
    ensures Inv(Do(s, r, a), r)
  {
    hide Conserved, Windowed, LossOk, GateOk, Ascending, DrawsOk, Do, Enabled;
    StepKeepsDraws(s, r, a);
    StepConserves(s, r, a);
    StepAscends(s, r, a);
    StepKeepsGate(s, r, a);
    StepKeepsWindow(s, r, a);
    StepKeepsLoss(s, r, a);
  }

  // ---------- Runs ----------

  /** Whether the actions can be taken one after another. */
  predicate Possible(s: State, r: Range, run: seq<Action>)
    decreases |run|
  {
    run == [] || (Enabled(s, run[0]) && Possible(Do(s, r, run[0]), r, run[1..]))
  }

  function After(s: State, r: Range, run: seq<Action>): State
    requires Possible(s, r, run)
    decreases |run|
  {
    if run == [] then s else After(Do(s, r, run[0]), r, run[1..])
  }

  lemma {:induction false} RunKeepsInv(s: State, r: Range, run: seq<Action>)
    requires Inv(s, r) && Possible(s, r, run)
    ensures Inv(After(s, r, run), r)
    decreases |run|
  {
    hide Inv, Enabled, Do;
    if run != [] {
      StepKeepsInv(s, r, run[0]);
      RunKeepsInv(Do(s, r, run[0]), r, run[1..]);
    }
  }

  /** The seeds that have begun and are not yet reported. */
  function Begun(s: State): set<nat>
  {
    (set i | 0 <= i < |s.workers| && s.workers[i].Running? :: s.workers[i].seed)
    + (set i | 0 <= i < |s.channel| :: s.channel[i]) + s.pending + (set x | x in s.failed)
  }

  lemma {:induction false} AtMostSoMany(a: nat, b: nat, xs: set<nat>)
    requires a <= b && forall x :: x in xs ==> a <= x < b
    ensures |xs| <= b - a
    decreases b
  {
    if a < b {
      AtMostSoMany(a, b - 1, xs - {b - 1});
      assert xs <= (xs - {b - 1}) + {b - 1};
    } else {
      assert xs == {};
    }
  }

  lemma BegunInWindow(s: State, r: Range)
    requires Inv(s, r)
    ensures forall x :: x in Begun(s) ==> s.head <= x < s.head + PENDING_LIMIT
  {
    hide Sum, LossOk, DrawsOk, Conserved;
    forall x | x in Begun(s) ensures s.head <= x < s.head + PENDING_LIMIT {
      if i :| 0 <= i < |s.workers| && s.workers[i].Running? && s.workers[i].seed == x {
        HeldIsOwed(s, r, i);
      } else {
        PlacedIsOwed(s, r, x);
      }
    }
  }

  lemma SafeWhileInv(s: State, r: Range)
    requires Inv(s, r)
    ensures |s.reported| <= Seeds(r)
    ensures forall i :: 0 <= i < |s.workers| && s.workers[i].Waiting? ==> s.head <= s.workers[i].seed
    ensures |Begun(s)| <= PENDING_LIMIT && |s.pending| <= PENDING_LIMIT
  {
    hide Sum, Windowed, LossOk, DrawsOk, Begun;
    BegunInWindow(s, r);
    assert s.pending <= Begun(s) by {
      PendingHasBegun(s);
    }
    forall i | 0 <= i < |s.workers| && s.workers[i].Waiting? ensures s.head <= s.workers[i].seed {
      HeldIsOwed(s, r, i);
    }
    AtMostSoMany(s.head, s.head + PENDING_LIMIT, Begun(s));
    AtMostSoMany(s.head, s.head + PENDING_LIMIT, s.pending);
  }

  lemma PendingHasBegun(s: State)
    ensures s.pending <= Begun(s)
  {
  }

  /** The seeds reported are the first ones of the range in order, each once and none skipped; a
      waiting worker's seed never lies below the gate's head; and no more seeds have begun and not
      been reported than the window allows. */
  predicate Safe(s: State, r: Range)
  {
    && |s.reported| <= Seeds(r)
    && (forall i :: 0 <= i < |s.reported| ==> s.reported[i] == r.first + i)
    && (forall i :: 0 <= i < |s.workers| && s.workers[i].Waiting? ==> s.head <= s.workers[i].seed)
    && |Begun(s)| <= 4096
    && |s.pending| <= 4096
  }

  /** Safety, in every interleaving, while the counter stays short of coming round. */
  lemma SweepIsSafe(r: Range, workers: nat, run: seq<Action>)
    requires Askable(r, workers) && StaysShort(r, workers) && Possible(Initial(r, workers), r, run)
    ensures Safe(After(Initial(r, workers), r, run), r)
  {
    hide Possible, After, Initial, Begun, Conserved, Windowed, LossOk, GateOk;
    InitialInv(r, workers);
    RunKeepsInv(Initial(r, workers), r, run);
    SafeWhileInv(After(Initial(r, workers), r, run), r);
  }

  // ---------- Progress ----------

  /** Every party has finished. */
  predicate Over(s: State)
  {
    (s.collector.Done? || s.collector.Gone?) && AllEnded(s.workers)
  }

  /** Until every party has finished, some party can take a step. */
  lemma SomePartyCanStep(s: State, r: Range) returns (a: Action)
    requires Inv(s, r) && !Over(s)
    ensures Enabled(s, a)
  {
    hide Sum, Windowed, Ascending, Conserved, DrawsOk;
    if s.collector.Reporting? {
      a := if s.expected in s.pending then Report else Publish;
    } else if s.collector.Receiving? && s.channel != [] {
      a := Receive;
    } else if AllEnded(s.workers) {
      a := Finish;
    } else {
      var w :| 0 <= w < |s.workers| && !Ended(s.workers[w]);
      if s.workers[w].Drawing? {
        a := Draw(w);
      } else if s.workers[w].Running? {
        a := Send(w);
      } else if s.abandoned {
        a := Admit(w);
      } else {
        a := HeadCanStep(s, r, w);
      }
    }
  }

  /** With the gate not abandoned and the channel drained, whoever holds the head seed can step. */
  lemma HeadCanStep(s: State, r: Range, w: nat) returns (a: Action)
    requires Inv(s, r) && !s.abandoned && s.collector.Receiving? && s.channel == []
    requires w < |s.workers| && s.workers[w].Waiting?
    ensures Enabled(s, a)
  {
    hide Sum, Windowed;
    HeldIsOwed(s, r, w);
    assert Owed(s, r, s.expected);
    assert Places(s, s.expected) == 1;
    SumOfOnes(s.workers, HoldsOne(s.expected));
    var v :| 0 <= v < |s.workers| && HoldsOne(s.expected)(s.workers[v]) == 1;
    a := if s.workers[v].Waiting? then Admit(v) else Send(v);
  }

  // ---------- Termination ----------

  function Weight(w: Worker): nat
  {
    match w
    case Drawing => 1
    case Waiting(_) => 9
    case Running(_) => 8
    case _ => 0
  }

  /** What is left to do: more for a seed the further it has to go. */
  function Left(s: State, r: Range): nat
  {
    10 * (Seeds(r) - Drawn(s, r)) + Sum(s.workers, Weight) + 6 * |s.channel| + 4 * |s.pending|
    + match s.collector
      case Receiving => 1
      case Reporting(_) => 2
      case _ => 0
  }

  /** Every step leaves less to do. */
  lemma StepLeavesLess(s: State, r: Range, a: Action)
    requires DrawsOk(s, r) && Enabled(s, a)
    ensures Left(Do(s, r, a), r) < Left(s, r)
  {
    hide Sum, DrawsOk, Counter;
    if ByWorker(a) {
      WorkerLeavesLess(s, r, a);
    } else if a.Receive? {
      assert |s.pending + {s.channel[0]}| <= |s.pending| + 1;
    }
  }

  lemma WorkerLeavesLess(s: State, r: Range, a: Action)
    requires DrawsOk(s, r) && Enabled(s, a) && ByWorker(a)
    ensures Left(Do(s, r, a), r) < Left(s, r)
  {
    hide Sum, DrawsOk, Counter;
    SumUpdate(s.workers, a.w, Do(s, r, a).workers[a.w], Weight);
    if a.Draw? {
      DrawTakesTheNext(s, r, a.w);
    }
  }

  lemma {:induction false} RunIsBounded(s: State, r: Range, run: seq<Action>)
    requires Inv(s, r) && Possible(s, r, run)
    ensures |run| <= Left(s, r)
    decreases |run|
  {
    hide Enabled, Do, Left, Conserved, Windowed, LossOk, GateOk, DrawsOk, Ascending;
    if run != [] {
      StepLeavesLess(s, r, run[0]);
      StepKeepsInv(s, r, run[0]);
      RunIsBounded(Do(s, r, run[0]), r, run[1..]);
    }
  }

  /** Short of a panic, once every party has finished the whole range is reported and nothing is
      left pending. */
  lemma CalmSweepIsComplete(s: State, r: Range)
    requires Inv(s, r) && Over(s) && Calm(s) && s.workers != []
    ensures |s.reported| == Seeds(r) && s.pending == {}
  {
    hide Sum, Windowed;
    assert Ended(s.workers[0]);
    if Reached(s, r) < r.first + Drawn(s, r) {
      assert Owed(s, r, s.expected);
      assert Places(s, s.expected) == 1;
      SumOfOnes(s.workers, HoldsOne(s.expected));
      assert false;
    }
    forall x | x in s.pending ensures false {
      PlacedIsOwed(s, r, x);
    }
  }

  /** Liveness, in every interleaving: no run is longer than ten steps a seed, one a worker and
      one; a run stops only with every party finished; and then, unless a worker or the
      collector panicked, every seed of the range has been reported. */
  lemma SweepEnds(r: Range, workers: nat, run: seq<Action>)
    requires Askable(r, workers) && StaysShort(r, workers) && Possible(Initial(r, workers), r, run)
    ensures |run| <= 10 * Seeds(r) + Started(r, workers) + 1
    ensures var s := After(Initial(r, workers), r, run);
            && (Over(s) || exists a :: Enabled(s, a))
            && (Over(s) && Calm(s) ==> |s.reported| == Seeds(r) && s.pending == {})
  {
    hide Possible, After, Inv, Over, Calm, Enabled, Do;
    var s0 := Initial(r, workers);
    InitialInv(r, workers);
    RunIsBounded(s0, r, run);
    SumOfSame(Started(r, workers), Drawing, Weight);
    RunKeepsInv(s0, r, run);
    WorkersStay(s0, r, run);
    var s := After(s0, r, run);
    if Over(s) {
      if Calm(s) {
        CalmSweepIsComplete(s, r);
      }
    } else {
      var a := SomePartyCanStep(s, r);
    }
  }

  lemma {:induction false} WorkersStay(s: State, r: Range, run: seq<Action>)
    requires Possible(s, r, run)
    ensures |After(s, r, run).workers| == |s.workers|
    decreases |run|
  {
    if run != [] {
      WorkersStay(Do(s, r, run[0]), r, run[1..]);
    }
  }

  // ---------- Where the counter comes round ----------

  lemma {:induction false} RunsJoin(s: State, r: Range, a: seq<Action>, b: seq<Action>)
    requires Possible(s, r, a) && Possible(After(s, r, a), r, b)
    ensures Possible(s, r, a + b) && After(s, r, a + b) == After(After(s, r, a), r, b)
    decreases |a|
  {
    hide Enabled, Do;
    if a == [] {
      assert a + b == b;
    } else {
      assert (a + b)[1..] == a[1..] + b;
      RunsJoin(Do(s, r, a[0]), r, a[1..], b);
    }
  }

  lemma OneAction(s: State, r: Range, a: Action)
    requires Enabled(s, a)
    ensures Possible(s, r, [a]) && After(s, r, [a]) == Do(s, r, a)
  {
    assert [a][1..] == [];
  }

  function Capped(x: nat): nat
  {
    if x <= U64_MAX then x else U64_MAX
  }

  function Drawers(n: nat, stopped: nat): (workers: seq<Worker>)
    ensures |workers| == n
    ensures forall i :: 0 <= i < n ==> workers[i] == if i < stopped then Stopped else Drawing
  {
    seq(n, i => if i < stopped then Stopped else Drawing)
  }

  /** The first `i` seeds swept, some workers stopped, and nothing in hand. */
  function Swept(r: Range, n: nat, i: nat, stopped: nat): State
  {
    State(i + stopped, Capped(r.first + i), false, Drawers(n, stopped), [], {}, Capped(r.first + i),
          seq(i, j => r.first + j), Receiving, multiset{}, multiset{})
  }

  /** One seed from draw to report, with nobody else moving. */
  function OneSeed(): seq<Action>
  {
    [Draw(0), Admit(0), Send(0), Receive, Report, Publish]
  }

  lemma SeedIsRun(r: Range, n: nat, i: nat)
    requires 1 <= r.first <= r.last <= U64_MAX && i < Seeds(r) && n >= 1
    ensures var s, w := Swept(r, n, i, 0), r.first + i;
            var running := s.(draws := i + 1, workers := s.workers[0 := Running(w)]);
            Possible(s, r, OneSeed()[..2]) && After(s, r, OneSeed()[..2]) == running
  {
    hide Drawers;
    var s, w := Swept(r, n, i, 0), r.first + i;
    assert Counter(s, r) == w;
    OneAction(s, r, Draw(0));
    var waiting := Do(s, r, Draw(0));
    OneAction(waiting, r, Admit(0));
    RunsJoin(s, r, [Draw(0)], [Admit(0)]);
    assert OneSeed()[..2] == [Draw(0)] + [Admit(0)];
    assert waiting.workers[0 := Running(w)] == s.workers[0 := Running(w)];
  }

  lemma SeedIsReceived(r: Range, n: nat, i: nat)
    requires 1 <= r.first <= r.last <= U64_MAX && i < Seeds(r) && n >= 1
    ensures var s, w := Swept(r, n, i, 0), r.first + i;
            var running := s.(draws := i + 1, workers := s.workers[0 := Running(w)]);
            var received := s.(draws := i + 1, pending := {w}, collector := Reporting(s.expected));
            Possible(running, r, OneSeed()[2..4]) && After(running, r, OneSeed()[2..4]) == received
  {
    hide Drawers, Possible, After, Capped;
    var s, w := Swept(r, n, i, 0), r.first + i;
    var running := s.(draws := i + 1, workers := s.workers[0 := Running(w)]);
    OneAction(running, r, Send(0));
    var sent := Do(running, r, Send(0));
    assert sent.workers == s.workers && sent.channel == [w];
    OneAction(sent, r, Receive);
    assert Do(sent, r, Receive).channel == [] && Do(sent, r, Receive).pending == {w};
    RunsJoin(running, r, [Send(0)], [Receive]);
    assert OneSeed()[2..4] == [Send(0)] + [Receive];
  }

  lemma SeedIsReported(r: Range, n: nat, i: nat)
    requires 1 <= r.first <= r.last <= U64_MAX && i < Seeds(r) && n >= 1
    ensures var s, w := Swept(r, n, i, 0), r.first + i;
            var received := s.(draws := i + 1, pending := {w}, collector := Reporting(s.expected));
            Possible(received, r, OneSeed()[4..]) && After(received, r, OneSeed()[4..]) == Swept(r, n, i + 1, 0)
  {
    hide Drawers, Possible, After;
    var s, w := Swept(r, n, i, 0), r.first + i;
    var received := s.(draws := i + 1, pending := {w}, collector := Reporting(s.expected));
    OneAction(received, r, Report);
    var told := Do(received, r, Report);
    assert told.pending == {} && told.reported == seq(i + 1, j => r.first + j);
    OneAction(told, r, Publish);
    RunsJoin(received, r, [Report], [Publish]);
    assert OneSeed()[4..] == [Report] + [Publish];
  }

  lemma {:induction false} AllByOne(r: Range, n: nat, i: nat) returns (run: seq<Action>)
    requires 1 <= r.first <= r.last <= U64_MAX && i <= Seeds(r) && n >= 1
    ensures Possible(Swept(r, n, 0, 0), r, run) && After(Swept(r, n, 0, 0), r, run) == Swept(r, n, i, 0)
    decreases i
  {
    hide Possible, After, Swept;
    if i == 0 {
      run := [];
      NoAction(Swept(r, n, 0, 0), r);
    } else {
      run := AllByOne(r, n, i - 1);
      var s := Swept(r, n, i - 1, 0);
      SeedIsRun(r, n, i - 1);
      SeedIsReceived(r, n, i - 1);
      SeedIsReported(r, n, i - 1);
      var one := OneSeed()[..2] + OneSeed()[2..4];
      RunsJoin(s, r, OneSeed()[..2], OneSeed()[2..4]);
      RunsJoin(s, r, one, OneSeed()[4..]);
      RunsJoin(Swept(r, n, 0, 0), r, run, one + OneSeed()[4..]);
      run := run + (one + OneSeed()[4..]);
    }
  }

  lemma NoAction(s: State, r: Range)
    ensures Possible(s, r, []) && After(s, r, []) == s
  {
  }

  /** With the range drawn out, workers stop one by one while the counter runs outside it. */
  lemma {:induction false} WorkersStop(r: Range, n: nat, j: nat) returns (run: seq<Action>)
    requires 1 <= r.first <= r.last <= U64_MAX && j <= n && Seeds(r) + j <= U64_MAX + 1
    ensures var s := Swept(r, n, Seeds(r), 0);
            Possible(s, r, run) && After(s, r, run) == Swept(r, n, Seeds(r), j)
    decreases j
  {
    hide Possible, After;
    var s := Swept(r, n, Seeds(r), 0);
    if j == 0 {
      run := [];
      NoAction(s, r);
    } else {
      run := WorkersStop(r, n, j - 1);
      var t := Swept(r, n, Seeds(r), j - 1);
      var v := r.first + t.draws;
      assert v <= U64_MAX ==> Counter(t, r) == v;
      assert v > U64_MAX ==> Counter(t, r) == v - U64_MAX - 1;
      OneAction(t, r, Draw(j - 1));
      assert t.workers[j - 1 := Stopped] == Drawers(n, j);
      RunsJoin(s, r, run, [Draw(j - 1)]);
      run := run + [Draw(j - 1)];
    }
  }

  /** Past that the counter does come round: the first seed is drawn again, below the head. */
  lemma CounterComesRound(r: Range, workers: nat) returns (run: seq<Action>)
    requires Askable(r, workers) && !StaysShort(r, workers)
    ensures Possible(Initial(r, workers), r, run) && !Safe(After(Initial(r, workers), r, run), r)
  {
    hide Possible, After;
    var n, j := Started(r, workers), U64_MAX + 1 - Seeds(r);
    var swept := AllByOne(r, n, Seeds(r));
    var stopped := WorkersStop(r, n, j);
    var t := Swept(r, n, Seeds(r), j);
    assert Initial(r, workers) == Swept(r, n, 0, 0) by {
      assert Initial(r, workers).workers == Drawers(n, 0);
    }
    RunsJoin(Initial(r, workers), r, swept, stopped);
    assert Counter(t, r) == r.first;
    OneAction(t, r, Draw(j));
    RunsJoin(Initial(r, workers), r, swept + stopped, [Draw(j)]);
    run := swept + stopped + [Draw(j)];
    var s := Do(t, r, Draw(j));
    assert s.workers[j] == Waiting(r.first) && s.head > r.first;
  }

  ghost predicate AlwaysSafe(r: Range, workers: nat)
  {
    forall run :: Possible(Initial(r, workers), r, run) ==> Safe(After(Initial(r, workers), r, run), r)
  }

  /** Every run of a sweep is safe exactly when its counter cannot come round. */
  lemma SweepIsSafeIff(r: Range, workers: nat)
    requires Askable(r, workers)
    ensures AlwaysSafe(r, workers) <==> StaysShort(r, workers)
  {
    hide Possible, After, Safe, Initial, StaysShort;
    if StaysShort(r, workers) {
      forall run | Possible(Initial(r, workers), r, run) ensures Safe(After(Initial(r, workers), r, run), r) {
        SweepIsSafe(r, workers, run);
      }
    } else {
      var run := CounterComesRound(r, workers);
    }
  }

  // ---------- The window is reached ----------

  /** The first seed still running, and the next `i` finished and held back behind it. */
  function Ahead(r: Range, n: nat, i: nat): State
    requires n >= 2
  {
    State(i + 1, r.first, false, Drawers(n, 0)[0 := Running(r.first)], [], Held(r, i), r.first, [], Receiving,
          multiset{}, multiset{})
  }

  /** The `i` seeds after the first. */
  function Held(r: Range, i: nat): (seeds: set<nat>)
    ensures |seeds| == i && forall x :: x in seeds ==> r.first < x <= r.first + i
  {
    if i == 0 then {} else Held(r, i - 1) + {r.first + i}
  }

  /** One seed more from draw to the pending set, with the first still running. */
  lemma OneMoreAhead(r: Range, n: nat, i: nat) returns (run: seq<Action>)
    requires 1 <= r.first <= r.last <= U64_MAX && n >= 2 && i + 1 < Seeds(r) && i + 1 < 4096
    ensures Possible(Ahead(r, n, i), r, run) && After(Ahead(r, n, i), r, run) == Ahead(r, n, i + 1)
  {
    hide Drawers, Possible, After, Held;
    var s, w := Ahead(r, n, i), r.first + i + 1;
    assert Counter(s, r) == w;
    OneAction(s, r, Draw(1));
    var drawn := Do(s, r, Draw(1));
    OneAction(drawn, r, Admit(1));
    RunsJoin(s, r, [Draw(1)], [Admit(1)]);
    var running := Do(drawn, r, Admit(1));
    OneAction(running, r, Send(1));
    RunsJoin(s, r, [Draw(1)] + [Admit(1)], [Send(1)]);
    var sent := Do(running, r, Send(1));
    assert sent == s.(draws := i + 2, channel := [w]) by {
      assert sent.workers == s.workers;
    }
    OneAction(sent, r, Receive);
    RunsJoin(s, r, [Draw(1)] + [Admit(1)] + [Send(1)], [Receive]);
    var received := Do(sent, r, Receive);
    HeldGrows(r, i);
    assert received.pending == Held(r, i + 1) && received.channel == [];
    OneAction(received, r, Publish);
    RunsJoin(s, r, [Draw(1)] + [Admit(1)] + [Send(1)] + [Receive], [Publish]);
    run := [Draw(1)] + [Admit(1)] + [Send(1)] + [Receive] + [Publish];
  }

  lemma HeldGrows(r: Range, i: nat)
    ensures Held(r, i + 1) == Held(r, i) + {r.first + i + 1}
  {
  }

  lemma {:induction false} GetsAhead(r: Range, workers: nat, i: nat) returns (run: seq<Action>)
    requires Askable(r, workers) && Started(r, workers) >= 2 && i < Seeds(r) && i < 4096
    ensures Possible(Initial(r, workers), r, run)
    ensures After(Initial(r, workers), r, run) == Ahead(r, Started(r, workers), i)
    decreases i
  {
    hide Possible, After, Held, Drawers;
    var s, n := Initial(r, workers), Started(r, workers);
    if i == 0 {
      OneAction(s, r, Draw(0));
      var drawn := Do(s, r, Draw(0));
      OneAction(drawn, r, Admit(0));
      RunsJoin(s, r, [Draw(0)], [Admit(0)]);
      run := [Draw(0)] + [Admit(0)];
      NothingHeldBack(r);
      assert Do(drawn, r, Admit(0)).workers == Drawers(n, 0)[0 := Running(r.first)];
    } else {
      run := GetsAhead(r, workers, i - 1);
      var more := OneMoreAhead(r, n, i - 1);
      RunsJoin(s, r, run, more);
      run := run + more;
    }
  }

  lemma NothingHeldBack(r: Range)
    ensures Held(r, 0) == {}
  {
  }

  /** The bound is exact: with two workers and seeds enough, a slow first seed lets the other worker
      get as far as 4096 seeds begun and not reported. */
  lemma WindowIsReached(r: Range, workers: nat) returns (run: seq<Action>)
    requires Askable(r, workers) && Started(r, workers) >= 2 && Seeds(r) >= 4096
    ensures Possible(Initial(r, workers), r, run)
    ensures |Begun(After(Initial(r, workers), r, run))| == 4096
  {
    hide Possible, After, Held, Begun, Ahead;
    run := GetsAhead(r, workers, 4095);
    BegunAhead(r, Started(r, workers), 4095);
  }

  lemma BegunAhead(r: Range, n: nat, i: nat)
    requires n >= 2
    ensures Begun(Ahead(r, n, i)) == {r.first} + Held(r, i)
  {
    hide Held, Drawers;
    var s := Ahead(r, n, i);
    assert s.workers[0] == Running(r.first);
    assert forall j :: 0 < j < n ==> s.workers[j] == Drawing;
    assert (set j | 0 <= j < |s.workers| && s.workers[j].Running? :: s.workers[j].seed) == {r.first};
  }
}
