/** What has become of each caller of the fair semaphore
    (pkg/concurrent/fair_semaphore.go), told from the events of the run: who holds a
    slot, who is about to give one back, who is done. */
module FairStages {
  import opened FairGate
  import opened FairRuns

  /** The stage of a caller fits what has happened to it.  One that was neither woken
      nor cancelled is where its arrival put it. */
  predicate Fits(c: Caller, p: nat, es: seq<Event>) {
    && (Arrive(p, c.owner) in es || Try(p, c.owner) in es)
    && (Wake(p, true) in es ==> Wake(p, false) !in es && SeeCancel(p) !in es)
    && (Wake(p, false) in es ==> SeeCancel(p) !in es)
    && (Abandon(p) in es ==> SeeCancel(p) in es)
    && (GiveBack(p) in es && SeeCancel(p) in es ==> Abandon(p) in es)
    && if GiveBack(p) in es then c.stage == Finished
       else if Abandon(p) in es then c.stage == if c.done then Returning else Finished
       else if SeeCancel(p) in es then c.stage == Cancelling
       else if Wake(p, true) in es then c.stage == Returning
       else if Wake(p, false) in es then c.stage == Holding
       else c.stage == Holding || c.stage == Blocked
  }

  /** Nothing but a failed Try has happened to a caller that is not there. */
  predicate Unknown(p: nat, es: seq<Event>) {
    forall e :: e in es && e.p == p ==> e.Try?
  }

  ghost predicate AllFit(s: Sys, es: seq<Event>) {
    && (forall p :: p in s.callers ==> Fits(s.callers[p], p, es))
    && (forall p :: p !in s.callers ==> Unknown(p, es))
  }

  // ---------------------------------------------------------------- one step

  /** Nobody else's step changes a caller's stage; only a hand-over marks it. */
  lemma OthersKeep(s: Sys, e: Event, p: nat)
    requires Inv(s) && Enabled(s, e) && e.p != p
    ensures p in s.callers <==> p in Step(s, e).callers
    ensures p in s.callers ==>
              && Step(s, e).callers[p].stage == s.callers[p].stage
              && Step(s, e).callers[p].owner == s.callers[p].owner
              && (s.callers[p].done ==> Step(s, e).callers[p].done)
              && (s.callers[p].stage == Finished || s.callers[p].stage == Returning ==>
                    Step(s, e).callers[p].done == s.callers[p].done)
  {
    if e.GiveBack? {
      GiveBackStep(s, e.p);
      if s.gate.queue != [] {
        var w := s.gate.queue[Pick(Freed(s, e.p).gate)];
        assert w.caller in s.callers && Queued(s.callers[w.caller]);
      }
    }
  }

  lemma FitsLater(c: Caller, d: Caller, p: nat, es: seq<Event>, e: Event)
    requires Fits(c, p, es) && e.p != p && d.stage == c.stage && d.owner == c.owner
    requires Abandon(p) in es && GiveBack(p) !in es ==> d.done == c.done
    ensures Fits(d, p, es + [e])
  {
  }

  /** Where an arrival puts a caller: into a slot exactly when one is free. */
  lemma ArrivalStage(s: Sys, e: Event)
    requires Inv(s) && Enabled(s, e) && (e.Arrive? || e.Try?)
    ensures e.p in Step(s, e).callers <==> e.Arrive? || s.gate.total < s.gate.cap
    ensures e.p in Step(s, e).callers ==>
              && Step(s, e).callers[e.p].owner == e.owner
              && Step(s, e).callers[e.p].stage == if s.gate.total < s.gate.cap then Holding else Blocked
  {
    FastPathExact(s, e.owner);
  }

  lemma GiverStage(s: Sys, p: nat)
    requires Inv(s) && Enabled(s, GiveBack(p))
    ensures var t := Step(s, GiveBack(p));
            p in t.callers && t.callers[p].stage == Finished && t.callers[p].owner == s.callers[p].owner
  {
    GiveBackStep(s, p);
  }

  lemma NewcomerFits(s: Sys, es: seq<Event>, e: Event)
    requires Inv(s) && AllFit(s, es) && Enabled(s, e) && (e.Arrive? || e.Try?)
    ensures if e.p in Step(s, e).callers then Fits(Step(s, e).callers[e.p], e.p, es + [e]) else Unknown(e.p, es + [e])
  {
    assert e in es + [e] && Unknown(e.p, es);
    ArrivalStage(s, e);
  }

  lemma GiverFits(s: Sys, es: seq<Event>, p: nat)
    requires Inv(s) && AllFit(s, es) && Enabled(s, GiveBack(p))
    ensures p in Step(s, GiveBack(p)).callers && Fits(Step(s, GiveBack(p)).callers[p], p, es + [GiveBack(p)])
  {
    assert GiveBack(p) in es + [GiveBack(p)] && Fits(s.callers[p], p, es);
    GiverStage(s, p);
  }

  lemma WaiterFits(s: Sys, es: seq<Event>, e: Event)
    requires AllFit(s, es) && Enabled(s, e) && (e.Wake? || e.SeeCancel? || e.Abandon?)
    ensures e.p in Step(s, e).callers && Fits(Step(s, e).callers[e.p], e.p, es + [e])
  {
    assert e in es + [e] && Fits(s.callers[e.p], e.p, es);
  }

  lemma OwnFits(s: Sys, es: seq<Event>, e: Event)
    requires Inv(s) && AllFit(s, es) && Enabled(s, e)
    ensures if e.p in Step(s, e).callers then Fits(Step(s, e).callers[e.p], e.p, es + [e]) else Unknown(e.p, es + [e])
  {
    if e.Arrive? || e.Try? {
      NewcomerFits(s, es, e);
    } else if e.GiveBack? {
      GiverFits(s, es, e.p);
    } else {
      WaiterFits(s, es, e);
    }
  }

  lemma StepFits(s: Sys, es: seq<Event>, e: Event)
    requires Inv(s) && AllFit(s, es) && Enabled(s, e)
    ensures AllFit(Step(s, e), es + [e])
  {
    var t := Step(s, e);
    OwnFits(s, es, e);
    forall p | p != e.p ensures if p in t.callers then Fits(t.callers[p], p, es + [e]) else Unknown(p, es + [e]) {
      OthersKeep(s, e, p);
      if p in s.callers {
        FitsLater(s.callers[p], t.callers[p], p, es, e);
      }
    }
  }

  // ---------------------------------------------------------------- whole runs

  lemma OneOver<T>(past: seq<T>, es: seq<T>)
    requires es != []
    ensures (past + [es[0]]) + es[1..] == past + es
  {
  }

  lemma {:induction false} RunFits(s: Sys, past: seq<Event>, es: seq<Event>, all: seq<Event>)
    requires Inv(s) && AllFit(s, past) && Possible(s, es) && all == past + es
    ensures AllFit(Run(s, es), all)
    decreases |es|
  {
    if es == [] {
      assert all == past;
    } else {
      StepFits(s, past, es[0]);
      StepInv(s, es[0]);
      OneOver(past, es);
      RunFits(Step(s, es[0]), past + [es[0]], es[1..], all);
    }
  }

  lemma {:induction false} Undisturbed(s: Sys, es: seq<Event>, p: nat)
    requires Inv(s) && Possible(s, es) && p in s.callers && forall e :: e in es ==> e.p != p
    ensures p in Run(s, es).callers && Run(s, es).callers[p].stage == s.callers[p].stage
    ensures Run(s, es).callers[p].owner == s.callers[p].owner
    decreases |es|
  {
    if es != [] {
      assert es[0] in es && forall e :: e in es[1..] ==> e in es;
      OthersKeep(s, es[0], p);
      StepInv(s, es[0]);
      Undisturbed(Step(s, es[0]), es[1..], p);
    }
  }

  lemma FromInit(cap: nat, es: seq<Event>)
    requires 1 <= cap && Possible(Init(cap), es)
    ensures Inv(Run(Init(cap), es)) && AllFit(Run(Init(cap), es), es)
  {
    InitInv(cap);
    assert [] + es == es;
    RunInv(Init(cap), es);
    RunFits(Init(cap), [], es, es);
  }

  /** A caller that holds a slot never had its cancellation seen, and one that is
      about to give a slot back has. */
  lemma HoldersAreUncancelled(cap: nat, es: seq<Event>, p: nat)
    requires 1 <= cap && Possible(Init(cap), es) && p in Run(Init(cap), es).callers
    ensures Run(Init(cap), es).callers[p].stage == Holding ==> Wake(p, true) !in es && SeeCancel(p) !in es
    ensures Run(Init(cap), es).callers[p].stage == Returning ==> Wake(p, true) in es || SeeCancel(p) in es
    ensures Run(Init(cap), es).callers[p].stage == Cancelling <==> SeeCancel(p) in es && Abandon(p) !in es
    ensures Run(Init(cap), es).callers[p].stage == Finished <==>
              GiveBack(p) in es || (Abandon(p) in es && !Run(Init(cap), es).callers[p].done)
  {
    FromInit(cap, es);
    assert Fits(Run(Init(cap), es).callers[p], p, es);
  }

  /** A caller that was handed a slot while it waited and was then woken uncancelled
      holds it until it gives it back; woken cancelled it gives it back. */
  lemma WokenHolds(cap: nat, es: seq<Event>, p: nat, cancelled: bool)
    requires 1 <= cap && Possible(Init(cap), es) && Wake(p, cancelled) in es && GiveBack(p) !in es
    ensures p in Run(Init(cap), es).callers
    ensures Run(Init(cap), es).callers[p].stage == if cancelled then Returning else Holding
  {
    FromInit(cap, es);
    assert p !in Run(Init(cap), es).callers ==> Unknown(p, es);
    assert p in Run(Init(cap), es).callers ==> Fits(Run(Init(cap), es).callers[p], p, es);
  }

  /** An arrival that nothing happened to afterwards is where it was put: in a slot if
      one was free, else waiting, and under its owner. */
  lemma ArrivedStays(cap: nat, before: seq<Event>, e: Event, after: seq<Event>)
    requires 1 <= cap && Possible(Init(cap), before) && Enabled(Run(Init(cap), before), e) && e.Arrive?
    requires Possible(Step(Run(Init(cap), before), e), after) && forall x :: x in after ==> x.p != e.p
    ensures var s := Run(Init(cap), before);
            var t := Run(Step(s, e), after);
            && e.p in t.callers && t.callers[e.p].owner == e.owner
            && t.callers[e.p].stage == if s.gate.total < s.gate.cap then Holding else Blocked
  {
    FromInit(cap, before);
    var s := Run(Init(cap), before);
    ArrivalStage(s, e);
    StepInv(s, e);
    Undisturbed(Step(s, e), after, e.p);
  }
}
