/** Map's bounded worker pool (pkg/concurrent/concurrent.go) as a transition system:
    the enqueuing loop, the workers, the callbacks and the parent context interleave
    freely.  One event is one channel operation, one select or one locked section. */
module WorkerPool {
  import opened Wrappers

  /** At the channel, holding a job, inside the callback, about to record an error,
      gone. */
  datatype Worker = Idle | Got(idx: nat) | Running(idx: nat) | Failing(error: Error) | Done

  datatype Pool = Pool(
    total: nat,
    next: nat,
    closed: bool,
    queue: seq<nat>,
    workers: seq<Worker>,
    cancelled: bool,
    parentCancelled: bool,
    results: seq<Option<Outcome>>,
    firstError: Option<Error>,
    started: seq<nat>)

  datatype Event =
    | Enqueue
    | GiveUp
    | Close
    | ParentCancel
    | Take(k: nat)
    | Leave(k: nat)
    | Skip(k: nat)
    | Start(k: nat)
    | Finish(k: nat, outcome: Outcome)
    | Record(k: nat)

  /** What each index yields as long as its context stays alive. */
  type Callback = nat -> Outcome

  function WorkerCount(total: nat, workers: int): (w: nat)
    requires total > 0
    ensures 1 <= w <= total
    ensures 1 <= workers <= total ==> w == workers
    ensures workers <= 0 ==> w == 1
    ensures workers > total ==> w == total
  {
    var w := if workers <= 0 then 1 else workers;
    if w > total then total else w
  }

  function Initial(total: nat, workers: int): Pool
    requires total > 0
  {
    Pool(total, 0, false, [], seq(WorkerCount(total, workers), _ => Idle), false, false,
         seq(total, _ => None), None, [])
  }

  predicate At(s: Pool, k: nat, w: Worker) {
    k < |s.workers| && s.workers[k] == w
  }

  predicate Enabled(fn: Callback, s: Pool, e: Event) {
    match e
    case Enqueue => !s.closed && s.next < s.total
    case GiveUp => !s.closed && s.next < s.total && s.cancelled
    case Close => !s.closed && s.next == s.total
    case ParentCancel => !s.parentCancelled
    case Take(k) => At(s, k, Idle) && s.queue != []
    case Leave(k) => At(s, k, Idle) && s.queue == [] && s.closed
    case Skip(k) => k < |s.workers| && s.workers[k].Got? && s.cancelled
    case Start(k) => k < |s.workers| && s.workers[k].Got? && !s.cancelled
    case Finish(k, outcome) =>
      && k < |s.workers| && s.workers[k].Running? && s.workers[k].idx < |s.results|
      && (outcome == fn(s.workers[k].idx) || s.cancelled)
    case Record(k) => k < |s.workers| && s.workers[k].Failing?
  }

  function Put(s: Pool, k: nat, w: Worker): Pool
    requires k < |s.workers|
  {
    s.(workers := s.workers[k := w])
  }

  function Step(fn: Callback, s: Pool, e: Event): Pool
    requires Enabled(fn, s, e)
  {
    match e
    case Enqueue => s.(queue := s.queue + [s.next], next := s.next + 1)
    case GiveUp => s.(closed := true)
    case Close => s.(closed := true)
    case ParentCancel => s.(parentCancelled := true, cancelled := true)
    case Take(k) => Put(s, k, Got(s.queue[0])).(queue := s.queue[1..])
    case Leave(k) => Put(s, k, Done)
    case Skip(k) => Put(s, k, Done)
    case Start(k) => Put(s, k, Running(s.workers[k].idx)).(started := s.started + [s.workers[k].idx])
    case Finish(k, outcome) =>
      Put(s, k, if outcome.Err? then Failing(outcome.error) else Idle)
      .(results := s.results[s.workers[k].idx := Some(outcome)])
    case Record(k) =>
      Put(s, k, Idle)
      .(firstError := if s.firstError.None? then Some(s.workers[k].error) else s.firstError, cancelled := true)
  }

  predicate IsRun(fn: Callback, s: Pool, es: seq<Event>)
    decreases |es|
  {
    es == [] || (Enabled(fn, s, es[0]) && IsRun(fn, Step(fn, s, es[0]), es[1..]))
  }

  function After(fn: Callback, s: Pool, es: seq<Event>): Pool
    requires IsRun(fn, s, es)
    decreases |es|
  {
    if es == [] then s else After(fn, Step(fn, s, es[0]), es[1..])
  }

  // ---------------------------------------------------------------- invariant

  function Taken(s: Pool): int {
    s.next - |s.queue|
  }

  /** The index a worker has in hand, or -1. */
  function Hand(w: Worker): int {
    match w
    case Got(i) => i
    case Running(i) => i
    case _ => -1
  }

  /** The channel holds the latest indices in order. */
  predicate Shaped(s: Pool) {
    && |s.results| == s.total && |s.workers| > 0
    && |s.queue| <= s.next <= s.total
    && (forall j :: 0 <= j < |s.queue| ==> s.queue[j] == Taken(s) + j)
    && (s.closed ==> s.next == s.total || s.cancelled)
  }

  /** A job in hand has left the channel and is not started yet; a running one is
      started and has no result yet. */
  predicate InHand(s: Pool) {
    && (forall k :: 0 <= k < |s.workers| && s.workers[k].Got? ==>
          s.workers[k].idx < Taken(s) && s.workers[k].idx !in s.started)
    && (forall k :: 0 <= k < |s.workers| && s.workers[k].Running? ==>
          s.workers[k].idx < Taken(s) && s.workers[k].idx in s.started)
    && (forall k :: 0 <= k < |s.workers| && s.workers[k].Running? && s.workers[k].idx < |s.results| ==>
          s.results[s.workers[k].idx].None?)
  }

  /** No index is in two hands. */
  predicate Exclusive(s: Pool) {
    forall j, k :: 0 <= j < |s.workers| && 0 <= k < |s.workers| && j != k && Hand(s.workers[j]) >= 0 ==>
      Hand(s.workers[j]) != Hand(s.workers[k])
  }

  predicate StartedOnce(s: Pool) {
    && (forall i, j :: 0 <= i < j < |s.started| ==> s.started[i] != s.started[j])
    && (forall i :: i in s.started ==> i < Taken(s))
  }

  predicate Stored(fn: Callback, s: Pool) {
    forall i :: 0 <= i < |s.results| && s.results[i].Some? ==>
      i in s.started && (s.results[i].value == fn(i) || s.cancelled)
  }

  /** Unless the pool was cancelled, an index taken from the channel is being worked
      on or has its result. */
  ghost predicate Accounted(s: Pool) {
    s.cancelled
    || forall i :: 0 <= i < Taken(s) && i < |s.results| && s.results[i].None? ==>
         exists k :: 0 <= k < |s.workers| && Hand(s.workers[k]) == i
  }

  ghost predicate Produced(s: Pool, e: Error) {
    exists i :: 0 <= i < |s.results| && s.results[i] == Some(Err(e))
  }

  /** Errors come from items, and an unrecorded one is in a worker's hands. */
  ghost predicate Blamed(s: Pool) {
    && (s.firstError.Some? ==> s.cancelled && Produced(s, s.firstError.value))
    && (s.cancelled ==> s.parentCancelled || s.firstError.Some?)
    && (forall k :: 0 <= k < |s.workers| && s.workers[k].Failing? ==> Produced(s, s.workers[k].error))
    && (forall i :: 0 <= i < |s.results| && s.results[i].Some? && s.results[i].value.Err? ==>
          s.firstError.Some? || exists k :: 0 <= k < |s.workers| && s.workers[k].Failing?)
  }

  predicate Gone(s: Pool) {
    forall k :: 0 <= k < |s.workers| && s.workers[k].Done? ==> s.cancelled || (s.closed && s.queue == [])
  }

  /** The recorded error is no artefact of the cancellation it causes. */
  ghost predicate Genuine(fn: Callback, s: Pool) {
    s.firstError.Some? && !s.parentCancelled ==> exists i :: 0 <= i < s.total && fn(i) == Err(s.firstError.value)
  }

  ghost predicate Inv(fn: Callback, s: Pool) {
    && Shaped(s) && InHand(s) && Exclusive(s) && StartedOnce(s)
    && Stored(fn, s) && Accounted(s) && Blamed(s) && Genuine(fn, s) && Gone(s)
  }

  lemma InitialInv(fn: Callback, total: nat, workers: int)
    requires total > 0
    ensures Inv(fn, Initial(total, workers))
  {
  }

  lemma StepShaped(fn: Callback, s: Pool, e: Event)
    requires Inv(fn, s) && Enabled(fn, s, e)
    ensures Shaped(Step(fn, s, e))
  {
  }

  lemma OneInHand(fn: Callback, s: Pool, e: Event, k: nat)
    requires Inv(fn, s) && Enabled(fn, s, e) && k < |s.workers|
    ensures var t := Step(fn, s, e);
            (t.workers[k].Got? || t.workers[k].Running? ==> t.workers[k].idx < Taken(t))
            && (t.workers[k].Got? ==> t.workers[k].idx !in t.started)
            && (t.workers[k].Running? ==> t.workers[k].idx in t.started)
  {
    if e.Start? && k != e.k {
      assert Hand(s.workers[k]) >= 0 ==> Hand(s.workers[k]) != Hand(s.workers[e.k]);
    }
  }

  lemma OneWithoutResult(fn: Callback, s: Pool, e: Event, k: nat)
    requires Inv(fn, s) && Enabled(fn, s, e) && k < |s.workers|
    ensures var t := Step(fn, s, e);
            t.workers[k].Running? && t.workers[k].idx < |t.results| ==> t.results[t.workers[k].idx].None?
  {
    if e.Finish? && k != e.k {
      assert Hand(s.workers[k]) >= 0 ==> Hand(s.workers[k]) != Hand(s.workers[e.k]);
    }
  }

  lemma StepInHand(fn: Callback, s: Pool, e: Event)
    requires Inv(fn, s) && Enabled(fn, s, e)
    ensures InHand(Step(fn, s, e))
  {
    var t := Step(fn, s, e);
    forall k | 0 <= k < |t.workers|
      ensures t.workers[k].Got? || t.workers[k].Running? ==> t.workers[k].idx < Taken(t)
      ensures t.workers[k].Got? ==> t.workers[k].idx !in t.started
      ensures t.workers[k].Running? ==> t.workers[k].idx in t.started
      ensures t.workers[k].Running? && t.workers[k].idx < |t.results| ==> t.results[t.workers[k].idx].None?
    {
      OneInHand(fn, s, e, k);
      OneWithoutResult(fn, s, e, k);
    }
  }

  /** Hands are only emptied. */
  predicate HandsKept(s: Pool, t: Pool) {
    |t.workers| == |s.workers| && forall k :: 0 <= k < |t.workers| ==>
      Hand(t.workers[k]) < 0 || Hand(t.workers[k]) == Hand(s.workers[k])
  }

  lemma HandsKeptExclusive(s: Pool, t: Pool)
    requires Exclusive(s) && HandsKept(s, t)
    ensures Exclusive(t)
  {
  }

  lemma OnlyTakeFills(fn: Callback, s: Pool, e: Event)
    requires Enabled(fn, s, e) && !e.Take?
    ensures HandsKept(s, Step(fn, s, e))
  {
  }

  /** The index taken is later than every index in a hand. */
  lemma TakeExclusive(fn: Callback, s: Pool, k: nat)
    requires Inv(fn, s) && Enabled(fn, s, Take(k))
    ensures Exclusive(Step(fn, s, Take(k)))
  {
    assert s.queue[0] == Taken(s);
    assert forall j :: 0 <= j < |s.workers| ==> Hand(s.workers[j]) < Taken(s);
  }

  lemma StepExclusive(fn: Callback, s: Pool, e: Event)
    requires Inv(fn, s) && Enabled(fn, s, e)
    ensures Exclusive(Step(fn, s, e))
  {
    if e.Take? {
      TakeExclusive(fn, s, e.k);
    } else {
      OnlyTakeFills(fn, s, e);
      HandsKeptExclusive(s, Step(fn, s, e));
    }
  }

  lemma StepStarted(fn: Callback, s: Pool, e: Event)
    requires Inv(fn, s) && Enabled(fn, s, e)
    ensures StartedOnce(Step(fn, s, e)) && Stored(fn, Step(fn, s, e))
  {
  }

  /** A hand is emptied only with a result, or when the context is gone. */
  lemma HandStays(fn: Callback, s: Pool, e: Event, k: nat)
    requires Inv(fn, s) && Enabled(fn, s, e) && k < |s.workers| && 0 <= Hand(s.workers[k]) < |s.results|
    requires !Step(fn, s, e).cancelled && Step(fn, s, e).results[Hand(s.workers[k])].None?
    ensures Hand(Step(fn, s, e).workers[k]) == Hand(s.workers[k])
  {
  }

  lemma StepAccounted(fn: Callback, s: Pool, e: Event)
    requires Inv(fn, s) && Enabled(fn, s, e)
    ensures Accounted(Step(fn, s, e))
  {
    var t := Step(fn, s, e);
    if !t.cancelled {
      forall i | 0 <= i < Taken(t) && i < |t.results| && t.results[i].None?
        ensures exists k :: 0 <= k < |t.workers| && Hand(t.workers[k]) == i
      {
        if e.Take? && i == s.queue[0] {
          assert Hand(t.workers[e.k]) == i;
        } else {
          var k :| 0 <= k < |s.workers| && Hand(s.workers[k]) == i;
          HandStays(fn, s, e, k);
        }
      }
    }
  }

  /** A result is written once. */
  lemma ResultsStay(fn: Callback, s: Pool, e: Event)
    requires Inv(fn, s) && Enabled(fn, s, e)
    ensures var t := Step(fn, s, e);
            && |t.results| == |s.results|
            && forall i :: 0 <= i < |s.results| && s.results[i].Some? ==> t.results[i] == s.results[i]
  {
  }

  lemma StillProduced(fn: Callback, s: Pool, e: Event, x: Error)
    requires Inv(fn, s) && Enabled(fn, s, e) && Produced(s, x)
    ensures Produced(Step(fn, s, e), x)
  {
    var t := Step(fn, s, e);
    var i :| 0 <= i < |s.results| && s.results[i] == Some(Err(x));
    ResultsStay(fn, s, e);
    assert t.results[i] == Some(Err(x));
  }

  lemma StepProduced(fn: Callback, s: Pool, e: Event)
    requires Inv(fn, s) && Enabled(fn, s, e)
    ensures var t := Step(fn, s, e);
            && (t.firstError.Some? ==> t.cancelled && Produced(t, t.firstError.value))
            && (forall k :: 0 <= k < |t.workers| && t.workers[k].Failing? ==> Produced(t, t.workers[k].error))
  {
    var t := Step(fn, s, e);
    if s.firstError.Some? {
      StillProduced(fn, s, e, s.firstError.value);
    }
    if e.Record? {
      StillProduced(fn, s, e, s.workers[e.k].error);
    }
    forall k | 0 <= k < |t.workers| && t.workers[k].Failing? ensures Produced(t, t.workers[k].error) {
      FailingProduced(fn, s, e, k);
    }
  }

  lemma FailingProduced(fn: Callback, s: Pool, e: Event, k: nat)
    requires Inv(fn, s) && Enabled(fn, s, e) && k < |s.workers| && Step(fn, s, e).workers[k].Failing?
    ensures Produced(Step(fn, s, e), Step(fn, s, e).workers[k].error)
  {
    if e.Finish? && e.k == k {
      assert Step(fn, s, e).results[s.workers[k].idx] == Some(Err(e.outcome.error));
    } else {
      StillProduced(fn, s, e, s.workers[k].error);
    }
  }

  lemma StepBlamed(fn: Callback, s: Pool, e: Event)
    requires Inv(fn, s) && Enabled(fn, s, e)
    ensures Blamed(Step(fn, s, e))
  {
    var t := Step(fn, s, e);
    StepProduced(fn, s, e);
    forall i | 0 <= i < |t.results| && t.results[i].Some? && t.results[i].value.Err?
      ensures t.firstError.Some? || exists k :: 0 <= k < |t.workers| && t.workers[k].Failing?
    {
      if e.Finish? && i == s.workers[e.k].idx {
        assert t.workers[e.k].Failing?;
      } else if s.firstError.None? && !e.Record? {
        var k :| 0 <= k < |s.workers| && s.workers[k].Failing?;
        assert t.workers[k].Failing?;
      }
    }
  }

  lemma StepGenuine(fn: Callback, s: Pool, e: Event)
    requires Inv(fn, s) && Enabled(fn, s, e)
    ensures Genuine(fn, Step(fn, s, e))
  {
    if e.Record? && s.firstError.None? && !s.parentCancelled {
      var x := s.workers[e.k].error;
      var i :| 0 <= i < |s.results| && s.results[i] == Some(Err(x));
      assert fn(i) == Err(x);
    }
  }

  lemma StepGone(fn: Callback, s: Pool, e: Event)
    requires Inv(fn, s) && Enabled(fn, s, e)
    ensures Gone(Step(fn, s, e))
  {
  }

  lemma StepInv(fn: Callback, s: Pool, e: Event)
    requires Inv(fn, s) && Enabled(fn, s, e)
    ensures Inv(fn, Step(fn, s, e))
    ensures Step(fn, s, e).total == s.total && |Step(fn, s, e).workers| == |s.workers|
  {
    StepShaped(fn, s, e);
    StepInHand(fn, s, e);
    StepExclusive(fn, s, e);
    StepStarted(fn, s, e);
    StepAccounted(fn, s, e);
    StepBlamed(fn, s, e);
    StepGenuine(fn, s, e);
    StepGone(fn, s, e);
  }

  /** Once the context is cancelled no item is started any more ... */
  lemma {:induction false} NothingStartsAfterCancel(fn: Callback, s: Pool, es: seq<Event>)
    requires IsRun(fn, s, es) && s.cancelled
    ensures After(fn, s, es).cancelled && After(fn, s, es).started == s.started
    decreases |es|
  {
    if es != [] {
      NothingStartsAfterCancel(fn, Step(fn, s, es[0]), es[1..]);
    }
  }

  /** ... and the first error recorded is the one that stays. */
  lemma {:induction false} FirstErrorStays(fn: Callback, s: Pool, es: seq<Event>)
    requires IsRun(fn, s, es) && s.firstError.Some?
    ensures After(fn, s, es).firstError == s.firstError
    decreases |es|
  {
    if es != [] {
      FirstErrorStays(fn, Step(fn, s, es[0]), es[1..]);
    }
  }

  lemma {:induction false} RunInv(fn: Callback, s: Pool, es: seq<Event>)
    requires Inv(fn, s) && IsRun(fn, s, es)
    ensures Inv(fn, After(fn, s, es))
    ensures After(fn, s, es).total == s.total && |After(fn, s, es).workers| == |s.workers|
    decreases |es|
  {
    if es != [] {
      StepInv(fn, s, es[0]);
      RunInv(fn, Step(fn, s, es[0]), es[1..]);
    }
  }

  // ---------------------------------------------------------------- guarantees

  function RunningIndices(s: Pool): set<nat> {
    set k | 0 <= k < |s.workers| && s.workers[k].Running? :: s.workers[k].idx
  }

  lemma {:induction false} ImageBound(ws: seq<Worker>)
    ensures |set k | 0 <= k < |ws| && ws[k].Running? :: ws[k].idx| <= |ws|
  {
    var all := set k | 0 <= k < |ws| && ws[k].Running? :: ws[k].idx;
    if ws == [] {
      assert all == {};
    } else {
      var n := |ws| - 1;
      var front := ws[..n];
      ImageBound(front);
      var some := set k | 0 <= k < |front| && front[k].Running? :: front[k].idx;
      assert forall k :: 0 <= k < n ==> front[k] == ws[k];
      if ws[n].Running? {
        assert all <= some + {ws[n].idx};
        Subset(all, some + {ws[n].idx});
      } else {
        assert all <= some;
        Subset(all, some);
      }
    }
  }

  lemma {:induction false} Subset(a: set<nat>, b: set<nat>)
    requires a <= b
    ensures |a| <= |b|
    decreases |a|
  {
    if a != {} {
      var x :| x in a;
      Subset(a - {x}, b - {x});
    }
  }

  /** Never more than the asked-for number of callbacks at a time, and never one
      index twice. */
  lemma BoundedAndOnce(fn: Callback, total: nat, workers: int, es: seq<Event>)
    requires total > 0 && IsRun(fn, Initial(total, workers), es)
    ensures var s := After(fn, Initial(total, workers), es);
            && |RunningIndices(s)| <= WorkerCount(total, workers)
            && (forall i, j :: 0 <= i < j < |s.started| ==> s.started[i] != s.started[j])
            && (forall i :: i in s.started ==> i < total)
  {
    InitialInv(fn, total, workers);
    RunInv(fn, Initial(total, workers), es);
    ImageBound(After(fn, Initial(total, workers), es).workers);
  }

  // ---------------------------------------------------------------- termination

  function Weight(w: Worker): nat {
    match w
    case Idle => 1
    case Got(_) => 4
    case Running(_) => 3
    case Failing(_) => 2
    case Done => 0
  }

  function Load(ws: seq<Worker>): nat {
    if ws == [] then 0 else Load(ws[..|ws| - 1]) + Weight(ws[|ws| - 1])
  }

  function Remaining(s: Pool): int {
    5 * (s.total - s.next) + 4 * |s.queue| + Load(s.workers)
    + (if s.closed then 0 else 1) + (if s.parentCancelled then 0 else 1)
  }

  lemma {:induction false} LoadUpdate(ws: seq<Worker>, k: nat, w: Worker)
    requires k < |ws|
    ensures Load(ws[k := w]) == Load(ws) - Weight(ws[k]) + Weight(w)
  {
    var n := |ws| - 1;
    if k < n {
      LoadUpdate(ws[..n], k, w);
      assert ws[k := w][..n] == ws[..n][k := w];
    } else {
      assert ws[k := w][..n] == ws[..n];
    }
  }

  lemma {:induction false} LoadOfIdle(n: nat)
    ensures Load(seq(n, _ => Idle)) == n
  {
    var ws := seq(n, _ => Idle);
    if n > 0 {
      LoadOfIdle(n - 1);
      assert ws[..n - 1] == seq(n - 1, _ => Idle);
    }
  }

  lemma ShapedRemains(s: Pool)
    requires Shaped(s)
    ensures 0 <= Remaining(s)
  {
  }

  lemma StepShrinks(fn: Callback, s: Pool, e: Event)
    requires Enabled(fn, s, e)
    ensures Remaining(Step(fn, s, e)) < Remaining(s)
  {
    match e {
      case Take(k) => LoadUpdate(s.workers, k, Got(s.queue[0]));
      case Leave(k) => LoadUpdate(s.workers, k, Done);
      case Skip(k) => LoadUpdate(s.workers, k, Done);
      case Start(k) => LoadUpdate(s.workers, k, Running(s.workers[k].idx));
      case Finish(k, outcome) => LoadUpdate(s.workers, k, if outcome.Err? then Failing(outcome.error) else Idle);
      case Record(k) => LoadUpdate(s.workers, k, Idle);
      case _ =>
    }
  }

  lemma {:induction false} RunShrinks(fn: Callback, s: Pool, es: seq<Event>)
    requires Inv(fn, s) && IsRun(fn, s, es)
    ensures |es| + Remaining(After(fn, s, es)) <= Remaining(s) && Remaining(After(fn, s, es)) >= 0
    decreases |es|
  {
    if es == [] {
      assert Shaped(s);
    } else {
      StepInv(fn, s, es[0]);
      StepShrinks(fn, s, es[0]);
      ShapedRemains(Step(fn, s, es[0]));
      RunShrinks(fn, Step(fn, s, es[0]), es[1..]);
    }
  }

  /** Every schedule comes to an end. */
  lemma RunsAreShort(fn: Callback, total: nat, workers: int, es: seq<Event>)
    requires total > 0 && IsRun(fn, Initial(total, workers), es)
    ensures |es| <= 5 * total + WorkerCount(total, workers) + 2
  {
    InitialInv(fn, total, workers);
    RunShrinks(fn, Initial(total, workers), es);
    LoadOfIdle(WorkerCount(total, workers));
  }

  /** The caller's Wait returns: the channel is closed and all workers are gone. */
  predicate Over(s: Pool) {
    s.closed && forall k :: 0 <= k < |s.workers| ==> s.workers[k].Done?
  }

  /** Until then something can move without outside help. */
  lemma NeverStuck(fn: Callback, s: Pool)
    requires Inv(fn, s) && !Over(s)
    ensures exists e :: Enabled(fn, s, e) && !e.ParentCancel?
  {
    if !s.closed {
      if s.next < s.total {
        assert Enabled(fn, s, Enqueue);
      } else {
        assert Enabled(fn, s, Close);
      }
    } else {
      var k :| 0 <= k < |s.workers| && !s.workers[k].Done?;
      match s.workers[k] {
        case Idle =>
          if s.queue == [] {
            assert Enabled(fn, s, Leave(k));
          } else {
            assert Enabled(fn, s, Take(k));
          }
        case Got(_) =>
          if s.cancelled {
            assert Enabled(fn, s, Skip(k));
          } else {
            assert Enabled(fn, s, Start(k));
          }
        case Running(i) => assert Enabled(fn, s, Finish(k, fn(i)));
        case Failing(_) => assert Enabled(fn, s, Record(k));
      }
    }
  }

  // ---------------------------------------------------------------- what Map returns

  datatype Returned = Failed(error: Error) | Values(values: seq<Value>)

  /** The final loop: out[r.idx] = r.val over all result cells.  A cell nobody wrote
      has index 0 and the zero value. */
  method Assemble(results: seq<Option<Outcome>>, zero: Value) returns (out: seq<Value>)
    requires forall i :: 0 <= i < |results| && results[i].Some? ==> results[i].value.Ok?
    ensures |out| == |results|
    ensures forall i :: 0 < i < |results| ==> out[i] == Cell(results, i, zero)
    ensures results != [] ==> out[0] == if Skipped(results) then zero else Cell(results, 0, zero)
  {
    out := seq(|results|, _ => zero);
    for i := 0 to |results|
      invariant |out| == |results|
      invariant forall j :: 0 < j < |results| ==> out[j] == if j < i then Cell(results, j, zero) else zero
      invariant i > 0 ==> out[0] == if Skipped(results[..i]) then zero else Cell(results, 0, zero)
    {
      var idx := if results[i].Some? then i else 0;
      var val := if results[i].Some? then results[i].value.value else zero;
      out := out[idx := val];
      assert results[..i + 1] == results[..i] + [results[i]];
      SkippedSnoc(results[..i], results[i]);
    }
    assert results[..|results|] == results;
  }

  predicate Skipped(results: seq<Option<Outcome>>) {
    exists i :: 0 <= i < |results| && results[i].None?
  }

  lemma SkippedSnoc(results: seq<Option<Outcome>>, r: Option<Outcome>)
    ensures Skipped(results + [r]) <==> Skipped(results) || r.None?
  {
    var all := results + [r];
    assert all[|results|] == r;
    if Skipped(results) {
      var i :| 0 <= i < |results| && results[i].None?;
      assert all[i].None?;
    }
  }

  function Cell(results: seq<Option<Outcome>>, i: nat, zero: Value): Value
    requires i < |results|
  {
    match results[i]
    case Some(Ok(value)) => value
    case _ => zero
  }

  /** At the end without an error, no cell holds one. */
  lemma OnlyValues(fn: Callback, s: Pool)
    requires Inv(fn, s) && Over(s) && s.firstError.None?
    ensures forall i :: 0 <= i < |s.results| && s.results[i].Some? ==> s.results[i].value.Ok?
  {
  }

  /** The reply by the end state: cell 0 is lost once any cell was never written. */
  function Reply(s: Pool, zero: Value): Returned {
    match s.firstError
    case Some(e) => Failed(e)
    case None =>
      Values(seq(|s.results|, i requires 0 <= i < |s.results| =>
                   if i == 0 && Skipped(s.results) then zero else Cell(s.results, i, zero)))
  }

  method ReturnValue(fn: Callback, s: Pool, zero: Value) returns (r: Returned)
    requires Inv(fn, s) && Over(s)
    ensures r == Reply(s, zero)
    ensures r.Failed? <==> s.firstError.Some?
    ensures r.Values? ==> |r.values| == s.total
    ensures r.Values? && (forall i :: 0 <= i < s.total ==> s.results[i].Some?) ==>
              forall i :: 0 <= i < s.total ==> s.results[i] == Some(Ok(r.values[i]))
    ensures r.Values? ==> forall i :: 0 < i < s.total ==>
              if s.results[i].Some? then s.results[i] == Some(Ok(r.values[i])) else r.values[i] == zero
    ensures r.Values? && s.total > 0 && Skipped(s.results) ==> r.values[0] == zero
  {
    if s.firstError.Some? {
      return Failed(s.firstError.value);
    }
    OnlyValues(fn, s);
    var out := Assemble(s.results, zero);
    return Values(out);
  }

  /** A returned error is one that some started item produced. */
  lemma ErrorsAreProduced(fn: Callback, s: Pool)
    requires Inv(fn, s) && s.firstError.Some?
    ensures exists i :: i in s.started && i < |s.results| && s.results[i] == Some(Err(s.firstError.value))
  {
    var i :| 0 <= i < |s.results| && s.results[i] == Some(Err(s.firstError.value));
    assert i in s.started;
  }

  /** Without parent cancellation and without failing items, every index has been
      run and holds its own result. */
  lemma AllDelivered(fn: Callback, s: Pool)
    requires Inv(fn, s) && Over(s) && !s.parentCancelled && s.firstError.None?
    ensures forall i :: 0 <= i < s.total ==> i in s.started && s.results[i] == Some(fn(i)) && fn(i).Ok?
  {
    OnlyValues(fn, s);
    assert s.workers[0].Done? && s.queue == [] && s.next == s.total;
    forall i | 0 <= i < s.total
      ensures i in s.started && s.results[i] == Some(fn(i)) && fn(i).Ok?
    {
      assert s.results[i].Some?;
    }
  }

  /** Map's promise, exactly: with a parent context that stays alive it returns the
      values of all items in item order if no item fails, and otherwise the error
      of some item. */
  lemma FailsExactly(fn: Callback, total: nat, workers: int, es: seq<Event>)
    requires total > 0 && IsRun(fn, Initial(total, workers), es)
    requires Over(After(fn, Initial(total, workers), es)) && !After(fn, Initial(total, workers), es).parentCancelled
    ensures var s := After(fn, Initial(total, workers), es);
            s.firstError.None? <==> forall i :: 0 <= i < total ==> fn(i).Ok?
    ensures var s := After(fn, Initial(total, workers), es);
            && |s.results| == total
            && (s.firstError.None? ==> forall i :: 0 <= i < total ==> s.results[i] == Some(fn(i)))
            && (s.firstError.Some? ==> exists i :: 0 <= i < total && fn(i) == Err(s.firstError.value))
  {
    InitialInv(fn, total, workers);
    RunInv(fn, Initial(total, workers), es);
    var s := After(fn, Initial(total, workers), es);
    if s.firstError.None? {
      AllDelivered(fn, s);
    } else {
      var i :| 0 <= i < total && fn(i) == Err(s.firstError.value);
      assert !fn(i).Ok?;
    }
  }

  lemma Unroll(fn: Callback, s: Pool, e: Event, es: seq<Event>)
    requires Enabled(fn, s, e) && IsRun(fn, Step(fn, s, e), es)
    ensures IsRun(fn, s, [e] + es) && After(fn, s, [e] + es) == After(fn, Step(fn, s, e), es)
  {
    assert ([e] + es)[1..] == es;
  }

  // ---------------------------------------------------------------- cancelled by the parent

  function AllDone(n: nat): seq<Worker> {
    seq(n, _ => Done)
  }

  predicate AllIdle(ws: seq<Worker>, from: nat) {
    forall k :: from <= k < |ws| ==> ws[k] == Idle
  }

  /** With the channel empty and closed the idle workers leave one by one. */
  lemma {:induction false} LeaveFrom(fn: Callback, s: Pool, k: nat) returns (es: seq<Event>)
    requires s.closed && s.queue == [] && k <= |s.workers| && AllIdle(s.workers, k)
    requires forall j :: 0 <= j < k ==> s.workers[j] == Done
    ensures IsRun(fn, s, es) && After(fn, s, es) == s.(workers := AllDone(|s.workers|))
    decreases |s.workers| - k
  {
    if k == |s.workers| {
      es := [];
      assert s.workers == AllDone(k);
    } else {
      es := LeaveFrom(fn, Step(fn, s, Leave(k)), k + 1);
      Unroll(fn, s, Leave(k), es);
      es := [Leave(k)] + es;
    }
  }

  function Abandoned(s: Pool): Pool {
    s.(closed := true, cancelled := true, parentCancelled := true, workers := AllDone(|s.workers|))
  }

  /** The parent can end the run while all workers are idle and items are left. */
  lemma CancelIdle(fn: Callback, s: Pool) returns (es: seq<Event>)
    requires !s.closed && !s.parentCancelled && s.queue == [] && s.next < s.total && AllIdle(s.workers, 0)
    ensures IsRun(fn, s, es) && After(fn, s, es) == Abandoned(s)
  {
    var t := Step(fn, s, ParentCancel);
    es := LeaveFrom(fn, Step(fn, t, GiveUp), 0);
    Unroll(fn, t, GiveUp, es);
    Unroll(fn, s, ParentCancel, [GiveUp] + es);
    es := [ParentCancel] + ([GiveUp] + es);
  }

  /** Item 0 is done, nothing else begun. */
  function FirstDone(fn: Callback, total: nat, workers: int): Pool
    requires total > 0
  {
    var s := Initial(total, workers);
    s.(next := 1, results := s.results[0 := Some(fn(0))], started := [0])
  }

  lemma FirstItem(fn: Callback, total: nat, workers: int, es: seq<Event>)
    requires total > 0 && fn(0).Ok? && IsRun(fn, FirstDone(fn, total, workers), es)
    ensures var s, all := Initial(total, workers), [Enqueue] + ([Take(0)] + ([Start(0)] + ([Finish(0, fn(0))] + es)));
            IsRun(fn, s, all) && After(fn, s, all) == After(fn, FirstDone(fn, total, workers), es)
  {
    var s0 := Initial(total, workers);
    var s1 := s0.(next := 1, queue := [0]);
    var s2 := s1.(queue := [], workers := s0.workers[0 := Got(0)]);
    var s3 := s2.(workers := s0.workers[0 := Running(0)], started := [0]);
    assert Step(fn, s3, Finish(0, fn(0))) == FirstDone(fn, total, workers);
    Unroll(fn, s3, Finish(0, fn(0)), es);
    assert Step(fn, s2, Start(0)) == s3;
    Unroll(fn, s2, Start(0), [Finish(0, fn(0))] + es);
    assert Step(fn, s1, Take(0)) == s2;
    Unroll(fn, s1, Take(0), [Start(0)] + ([Finish(0, fn(0))] + es));
    assert Step(fn, s0, Enqueue) == s1;
    Unroll(fn, s0, Enqueue, [Take(0)] + ([Start(0)] + ([Finish(0, fn(0))] + es)));
  }

  /** The result at index 0 was written, and yet the reply is without error and has
      the zero value in its place. */
  ghost predicate LosesFirst(fn: Callback, s: Pool, es: seq<Event>, zero: Value) {
    && IsRun(fn, s, es) && Over(After(fn, s, es)) && After(fn, s, es).firstError.None?
    && |After(fn, s, es).results| > 0 && After(fn, s, es).results[0] == Some(fn(0))
    && var r := Reply(After(fn, s, es), zero);
    && r.Values? && |r.values| == s.total > 0 && r.values[0] == zero
  }

  lemma LosingRun(fn: Callback, total: nat, workers: int, zero: Value) returns (es: seq<Event>)
    requires total >= 2 && fn(0).Ok?
    ensures LosesFirst(fn, Initial(total, workers), es, zero)
  {
    var s := FirstDone(fn, total, workers);
    es := CancelIdle(fn, s);
    FirstItem(fn, total, workers, es);
    es := [Enqueue] + ([Take(0)] + ([Start(0)] + ([Finish(0, fn(0))] + es)));
    assert Abandoned(s).results[1].None?;
  }

  /** A single item that was written is not lost. */
  lemma OneIsKept(fn: Callback, workers: int, es: seq<Event>, zero: Value)
    requires fn(0).Ok? && fn(0) != Ok(zero)
    ensures !LosesFirst(fn, Initial(1, workers), es, zero)
  {
    if IsRun(fn, Initial(1, workers), es) {
      InitialInv(fn, 1, workers);
      RunInv(fn, Initial(1, workers), es);
    }
  }

  /** Parent cancellation alone is no error for Map, and it costs more than the
      skipped items: an unwritten cell points at index 0, so a result that was there
      is overwritten with the zero value.  This can happen exactly when there is
      more than one item. */
  lemma CancellationLosesAResult(fn: Callback, total: nat, workers: int, zero: Value)
    requires total > 0 && fn(0).Ok? && fn(0) != Ok(zero)
    ensures (exists es :: LosesFirst(fn, Initial(total, workers), es, zero)) <==> total >= 2
  {
    if total >= 2 {
      var es := LosingRun(fn, total, workers, zero);
    } else {
      forall es ensures !LosesFirst(fn, Initial(total, workers), es, zero) {
        OneIsKept(fn, workers, es, zero);
      }
    }
  }

  /** What Map promises when no item fails: every value, in item order. */
  predicate Delivers(fn: Callback, total: nat, r: Returned) {
    r.Values? && |r.values| == total && forall i :: 0 <= i < total ==> fn(i) == Ok(r.values[i])
  }

  /** The promise holds on every complete run; without cancellable, on those where
      the parent context stays alive. */
  ghost predicate PromiseKept(fn: Callback, total: nat, workers: int, zero: Value, cancellable: bool)
    requires total > 0
  {
    forall es ::
      && IsRun(fn, Initial(total, workers), es) && Over(After(fn, Initial(total, workers), es))
      && (cancellable || ParentCancel !in es)
      ==> Delivers(fn, total, Reply(After(fn, Initial(total, workers), es), zero))
  }

  lemma {:induction false} ParentStays(fn: Callback, s: Pool, es: seq<Event>)
    requires IsRun(fn, s, es) && ParentCancel !in es
    ensures After(fn, s, es).parentCancelled == s.parentCancelled
    decreases |es|
  {
    if es != [] {
      assert es[0] in es && forall e :: e in es[1..] ==> e in es;
      ParentStays(fn, Step(fn, s, es[0]), es[1..]);
    }
  }

  lemma LiveParentDelivers(fn: Callback, total: nat, workers: int, zero: Value, es: seq<Event>)
    requires total > 0 && (forall i :: 0 <= i < total ==> fn(i).Ok?)
    requires IsRun(fn, Initial(total, workers), es) && Over(After(fn, Initial(total, workers), es))
    requires ParentCancel !in es
    ensures Delivers(fn, total, Reply(After(fn, Initial(total, workers), es), zero))
  {
    ParentStays(fn, Initial(total, workers), es);
    FailsExactly(fn, total, workers, es);
    WrittenReply(fn, total, After(fn, Initial(total, workers), es), zero);
  }

  lemma WrittenReply(fn: Callback, total: nat, s: Pool, zero: Value)
    requires s.firstError.None? && |s.results| == total
    requires forall i :: 0 <= i < total ==> s.results[i] == Some(fn(i)) && fn(i).Ok?
    ensures Delivers(fn, total, Reply(s, zero))
  {
    assert !Skipped(s.results);
    forall i | 0 <= i < total ensures fn(i) == Ok(Reply(s, zero).values[i]) {
      assert s.results[i] == Some(fn(i));
    }
  }

  lemma CancelledAtOnce(fn: Callback, total: nat, workers: int, zero: Value, i: nat) returns (es: seq<Event>)
    requires i < total && fn(i).Ok? && fn(i).value != zero
    ensures IsRun(fn, Initial(total, workers), es) && Over(After(fn, Initial(total, workers), es))
    ensures !Delivers(fn, total, Reply(After(fn, Initial(total, workers), es), zero))
  {
    es := CancelIdle(fn, Initial(total, workers));
    var end := Abandoned(Initial(total, workers));
    assert end.results[i].None? && Reply(end, zero).values[i] == zero;
  }

  /** Without failing items, and if not all of them yield the zero value anyway, Map
      keeps its promise on every run if and only if its parent cannot be cancelled,
      for any number of items and workers. */
  lemma PromiseKeptExactly(fn: Callback, total: nat, workers: int, zero: Value, cancellable: bool)
    requires total > 0 && (forall i :: 0 <= i < total ==> fn(i).Ok?)
    requires exists i :: 0 <= i < total && fn(i) != Ok(zero)
    ensures PromiseKept(fn, total, workers, zero, cancellable) <==> !cancellable
  {
    if cancellable {
      var i :| 0 <= i < total && fn(i) != Ok(zero);
      var es := CancelledAtOnce(fn, total, workers, zero, i);
    } else {
      forall es |
        && IsRun(fn, Initial(total, workers), es) && Over(After(fn, Initial(total, workers), es))
        && ParentCancel !in es
        ensures Delivers(fn, total, Reply(After(fn, Initial(total, workers), es), zero))
      {
        LiveParentDelivers(fn, total, workers, zero, es);
      }
    }
  }

  /** A panicking item keeps its zero value. */
  function Isolated(work: nat -> Option<Value>, zero: Value): Callback {
    (i: nat) => Ok(if work(i).Some? then work(i).value else zero)
  }

  /** ParallelMap is the same pool without errors or cancellation: every index ends
      with its own value, whatever happens to the others. */
  lemma ParallelMapDelivers(work: nat -> Option<Value>, zero: Value, total: nat, workers: int, es: seq<Event>)
    requires total > 0 && IsRun(Isolated(work, zero), Initial(total, workers), es)
    requires Over(After(Isolated(work, zero), Initial(total, workers), es))
    requires !After(Isolated(work, zero), Initial(total, workers), es).parentCancelled
    ensures var s := After(Isolated(work, zero), Initial(total, workers), es);
            && |s.results| == total
            && forall i :: 0 <= i < total ==> s.results[i] == Some(Ok(if work(i).Some? then work(i).value else zero))
  {
    FailsExactly(Isolated(work, zero), total, workers, es);
  }

  // ---------------------------------------------------------------- Group

  function FirstError(finished: seq<Option<Error>>): Option<Error> {
    if finished == [] then None
    else if finished[0].Some? then finished[0]
    else FirstError(finished[1..])
  }

  lemma {:induction false} FirstErrorSnoc(finished: seq<Option<Error>>, e: Option<Error>)
    ensures FirstError(finished + [e]) == if FirstError(finished).Some? then FirstError(finished) else e
  {
    if finished == [] {
      assert finished + [e] == [e];
    } else {
      FirstErrorSnoc(finished[1..], e);
      assert (finished + [e])[1..] == finished[1..] + [e];
    }
  }

  class Group {
    var err: Option<Error>
    var cancelled: bool
    /** How the goroutines came back so far. */
    ghost var finished: seq<Option<Error>>

    ghost predicate Valid()
      reads this
    {
      err == FirstError(finished) && (err.Some? ==> cancelled)
    }

    constructor ()
      ensures Valid() && finished == [] && !cancelled
    {
      err, cancelled, finished := None, false, [];
    }

    method RecordError(e: Error)
      modifies this`err, this`cancelled
      ensures err == if old(err).Some? then old(err) else Some(e)
      ensures cancelled == (old(cancelled) || old(err).None?)
    {
      var first := err.None?;
      if first {
        err := Some(e);
      }
      if first {
        cancelled := true;
      }
    }

    /** One goroutine returns, or its panic is recovered. */
    method Finish(outcome: Option<Error>)
      requires Valid()
      modifies this
      ensures Valid() && finished == old(finished) + [outcome]
      ensures outcome.None? ==> cancelled == old(cancelled)
    {
      FirstErrorSnoc(finished, outcome);
      if outcome.Some? {
        RecordError(outcome.value);
      }
      finished := finished + [outcome];
    }
  }
}
