/** Who owns a running job, and what becomes of finished ones: exactly which events take a job from a live worker, and
    exactly when a finished row can still change. */
module JobOwnership {
  import opened Common
  import opened JobTable
  import opened JobRuns

  // -- Ownership ----------------------------------------------------------------------------------------------------

  /** The worker's own claim is on its job, which is running, or was canceled under the worker by a late commit. */
  ghost predicate Owns(w: World, v: WorkerId)
    requires v in w.busy
  {
    var j := w.busy[v].job;
    && j in w.jobs && (w.jobs[j].status == Running || w.jobs[j].status == Canceled)
    && w.jobs[j].claim.Some? && w.jobs[j].claim.value.worker == v
    && w.jobs[j].claim.value.leaseExpires == w.busy[v].deadline
  }

  ghost predicate OwnershipOk(w: World) {
    forall v | v in w.busy :: Owns(w, v)
  }

  lemma ClaimsAreExclusive(w: World)
    requires OwnershipOk(w)
    ensures forall v, v' | v in w.busy && v' in w.busy && w.busy[v].job == w.busy[v'].job :: v == v'
  {
    forall v, v' | v in w.busy && v' in w.busy && w.busy[v].job == w.busy[v'].job ensures v == v' {
      assert Owns(w, v) && Owns(w, v');
    }
  }

  /** The event is a recovery pass that touches the job of a live worker. */
  ghost predicate Takes(w: World, e: Event) {
    e.RecoverStale? && exists v | v in w.busy :: w.busy[v].job in Recovered(w.jobs, e.device, w.clock)
  }

  lemma RecoveryTakes(cfg: Config, w: World, e: Event)
    requires OwnershipOk(w) && e.RecoverStale?
    ensures OwnershipOk(Step(cfg, w, e)) <==> !Takes(w, e)
  {
    RecoverTouchesOnly(w.jobs, e.device, w.clock);
    var w' := Step(cfg, w, e);
    forall v | v in w.busy ensures Owns(w', v) <==> w.busy[v].job !in Recovered(w.jobs, e.device, w.clock) {
      assert Owns(w, v);
    }
  }

  lemma CommitKeepsOwnership(cfg: Config, w: World, e: Event)
    requires OwnershipOk(w) && e.CommitPlan?
    ensures OwnershipOk(Step(cfg, w, e))
  {
    var w' := Step(cfg, w, e);
    forall v | v in w'.busy ensures Owns(w', v) {
      assert Owns(w, v);
    }
  }

  /** Of all events, only such a recovery takes a job away from a live worker. */
  lemma OwnershipIsLostExactlyWhenTaken(cfg: Config, w: World, e: Event)
    requires RowsOk(w) && OwnershipOk(w)
    ensures OwnershipOk(Step(cfg, w, e)) <==> !Takes(w, e)
  {
    if e.RecoverStale? {
      RecoveryTakes(cfg, w, e);
    } else if e.CommitPlan? {
      CommitKeepsOwnership(cfg, w, e);
    } else {
      ClaimsAreExclusive(w);
      var w' := Step(cfg, w, e);
      forall v | v in w'.busy ensures Owns(w', v) {
        assert v in w.busy ==> Owns(w, v);
      }
    }
  }

  lemma OwnedUntil(cfg: Config, clock: int, es: seq<Event>, k: nat)
    requires k <= |es|
    requires forall i | 0 <= i < k :: !Takes(Run(cfg, Initial(clock), es[..i]), es[i])
    ensures OwnershipOk(Run(cfg, Initial(clock), es[..k]))
  {
    if k > 0 {
      OwnedUntil(cfg, clock, es, k - 1);
      LimitsHoldInEveryRun(cfg, clock, es[..k - 1]);
      PrefixStep(cfg, Initial(clock), es, k - 1);
      OwnershipIsLostExactlyWhenTaken(cfg, Run(cfg, Initial(clock), es[..k - 1]), es[k - 1]);
    }
  }

  /** Ownership stays exclusive throughout a run exactly when no recovery in it touches the job of a live worker. */
  lemma OwnershipHoldsExactlyWhenNoneTaken(cfg: Config, clock: int, es: seq<Event>)
    ensures (forall k | 0 <= k <= |es| :: OwnershipOk(Run(cfg, Initial(clock), es[..k])))
       <==> (forall k | 0 <= k < |es| :: !Takes(Run(cfg, Initial(clock), es[..k]), es[k]))
  {
    if forall k | 0 <= k < |es| :: !Takes(Run(cfg, Initial(clock), es[..k]), es[k]) {
      forall k | 0 <= k <= |es| ensures OwnershipOk(Run(cfg, Initial(clock), es[..k])) {
        OwnedUntil(cfg, clock, es, k);
      }
    } else {
      var k :| 0 <= k < |es| && Takes(Run(cfg, Initial(clock), es[..k]), es[k]);
      PrefixStep(cfg, Initial(clock), es, k);
      LimitsHoldInEveryRun(cfg, clock, es[..k]);
      if OwnershipOk(Run(cfg, Initial(clock), es[..k])) {
        OwnershipIsLostExactlyWhenTaken(cfg, Run(cfg, Initial(clock), es[..k]), es[k]);
        assert !OwnershipOk(Run(cfg, Initial(clock), es[..k + 1]));
      }
    }
  }

  // -- Timely runs --------------------------------------------------------------------------------------------------

  /** No live worker is still at work past its lease. */
  ghost predicate Timely(w: World) {
    forall v | v in w.busy :: w.clock <= w.busy[v].deadline
  }

  lemma TimelyJobsAreNotTaken(w: World, e: Event)
    requires OwnershipOk(w) && Timely(w)
    ensures !Takes(w, e)
  {
    if e.RecoverStale? {
      forall v | v in w.busy ensures w.busy[v].job !in Recovered(w.jobs, e.device, w.clock) {
        assert Owns(w, v);
      }
    }
  }

  /** A run in which every live worker writes its outcome, or dies, before its lease lapses. */
  ghost predicate TimelyRun(cfg: Config, clock: int, es: seq<Event>) {
    forall k | 0 <= k <= |es| :: Timely(Run(cfg, Initial(clock), es[..k]))
  }

  /** In every timely run no two live workers own the same job, and each one's own claim is on its job. */
  lemma OwnershipIsExclusive(cfg: Config, clock: int, es: seq<Event>)
    requires TimelyRun(cfg, clock, es)
    ensures var w := Run(cfg, Initial(clock), es);
            && OwnershipOk(w)
            && forall v, v' | v in w.busy && v' in w.busy && w.busy[v].job == w.busy[v'].job :: v == v'
  {
    TimelyUntil(cfg, clock, es, |es|);
    assert es[..|es|] == es;
    ClaimsAreExclusive(Run(cfg, Initial(clock), es));
  }

  lemma TimelyUntil(cfg: Config, clock: int, es: seq<Event>, k: nat)
    requires TimelyRun(cfg, clock, es) && k <= |es|
    ensures OwnershipOk(Run(cfg, Initial(clock), es[..k]))
    ensures forall i | 0 <= i < k :: !Takes(Run(cfg, Initial(clock), es[..i]), es[i])
  {
    if k > 0 {
      TimelyUntil(cfg, clock, es, k - 1);
      TimelyJobsAreNotTaken(Run(cfg, Initial(clock), es[..k - 1]), es[k - 1]);
      OwnedUntil(cfg, clock, es, k);
    }
  }

  // -- Workers on a port --------------------------------------------------------------------------------------------

  /** The live workers whose own claim names the port: they are the ones that drive its line. */
  ghost function DriversOf(w: World, port: PortId): set<WorkerId> {
    set v | v in w.busy && Owns(w, v) && w.jobs[w.busy[v].job].claim.value.port == port
  }

  /** No job was marked canceled under the worker that runs it. */
  ghost predicate AllRunning(w: World) {
    forall v | v in w.busy :: w.busy[v].job in w.jobs && w.jobs[w.busy[v].job].status == Running
  }

  function JobsOf(w: World, workers: set<WorkerId>): set<JobId>
    requires workers <= w.busy.Keys
  {
    set v | v in workers :: w.busy[v].job
  }

  lemma {:induction false} OneJobEach(w: World, workers: set<WorkerId>)
    requires OwnershipOk(w) && workers <= w.busy.Keys
    ensures |JobsOf(w, workers)| == |workers|
  {
    if workers != {} {
      var v :| v in workers;
      OneJobEach(w, workers - {v});
      ClaimsAreExclusive(w);
      assert JobsOf(w, workers) == JobsOf(w, workers - {v}) + {w.busy[v].job};
    }
  }

  /** As long as workers own their jobs and the rows say so, no more workers drive a port than it may serve. */
  lemma DriversAreBounded(cfg: Config, w: World, port: PortId)
    requires CapacityOk(cfg, w) && OwnershipOk(w) && AllRunning(w) && DriversOf(w, port) != {}
    ensures port in cfg.ports && |DriversOf(w, port)| <= cfg.ports[port].maxConcurrent
  {
    var drivers := DriversOf(w, port);
    OneJobEach(w, drivers);
    assert JobsOf(w, drivers) <= RunningOn(w.jobs, port);
    var v :| v in drivers;
    assert w.busy[v].job in RunningOn(w.jobs, port);
    SubsetCard(JobsOf(w, drivers), RunningOn(w.jobs, port));
  }

  /** A cancellation that read the job as queued, or a sweep, commits while a live worker runs it. */
  ghost predicate CancelsUnderway(w: World, e: Event) {
    e.CommitPlan? && e.plan in w.plans && w.plans[e.plan].intent != FlagRunning
    && exists v | v in w.busy :: w.busy[v].job == w.plans[e.plan].job
  }

  ghost predicate OwnedAndRunning(w: World) {
    OwnershipOk(w) && AllRunning(w)
  }

  lemma RunningIsLostExactlyWhen(cfg: Config, w: World, e: Event)
    requires RowsOk(w) && OwnedAndRunning(w)
    ensures OwnedAndRunning(Step(cfg, w, e)) <==> !Takes(w, e) && !CancelsUnderway(w, e)
  {
    OwnershipIsLostExactlyWhenTaken(cfg, w, e);
    ClaimsAreExclusive(w);
    var w' := Step(cfg, w, e);
    if CancelsUnderway(w, e) {
      var v :| v in w.busy && w.busy[v].job == w.plans[e.plan].job;
      assert v in w'.busy && w'.jobs[w.busy[v].job].status == Canceled;
    } else if !Takes(w, e) {
      forall v | v in w'.busy ensures w'.busy[v].job in w'.jobs && w'.jobs[w'.busy[v].job].status == Running {
        assert Owns(w', v);
        assert v in w.busy ==> Owns(w, v);
      }
    }
  }

  lemma RunningUntil(cfg: Config, clock: int, es: seq<Event>, k: nat)
    requires k <= |es|
    requires forall i | 0 <= i < k ::
               var w := Run(cfg, Initial(clock), es[..i]); !Takes(w, es[i]) && !CancelsUnderway(w, es[i])
    ensures OwnedAndRunning(Run(cfg, Initial(clock), es[..k]))
  {
    if k > 0 {
      RunningUntil(cfg, clock, es, k - 1);
      LimitsHoldInEveryRun(cfg, clock, es[..k - 1]);
      PrefixStep(cfg, Initial(clock), es, k - 1);
      RunningIsLostExactlyWhen(cfg, Run(cfg, Initial(clock), es[..k - 1]), es[k - 1]);
    }
  }

  /** In every run in which no recovery takes a live worker's job and no late commit cancels it, no port is ever
      driven by more workers than it may serve. */
  lemma DriversAreBoundedInRuns(cfg: Config, clock: int, es: seq<Event>, port: PortId)
    requires forall i | 0 <= i < |es| ::
               var w := Run(cfg, Initial(clock), es[..i]); !Takes(w, es[i]) && !CancelsUnderway(w, es[i])
    ensures var drivers := DriversOf(Run(cfg, Initial(clock), es), port);
            drivers != {} ==> port in cfg.ports && |drivers| <= cfg.ports[port].maxConcurrent
  {
    RunningUntil(cfg, clock, es, |es|);
    assert es[..|es|] == es;
    LimitsHoldInEveryRun(cfg, clock, es);
    if DriversOf(Run(cfg, Initial(clock), es), port) != {} {
      DriversAreBounded(cfg, Run(cfg, Initial(clock), es), port);
    }
  }

  // -- Finished jobs ------------------------------------------------------------------------------------------------

  /** A finished row shows that the intent was committed to it after it was formed. */
  predicate Spoils(job: Job, i: Intent) {
    match i
    case CancelQueued => job.status != Canceled || !job.cancelRequested
    case FlagRunning => !job.cancelRequested
    case CancelOrphan => job.status != Canceled
  }

  /** A worker that has the job in memory reports another outcome. */
  predicate Contradicts(w: World, e: Event, j: JobId)
    requires j in w.jobs
  {
    e.Finish? && e.worker in w.busy && w.busy[e.worker].job == j && Finished(e.outcome) && e.outcome != w.jobs[j].status
  }

  /** A cancellation or sweep that read the row before it was finished commits. */
  predicate ComesLate(w: World, e: Event, j: JobId)
    requires j in w.jobs
  {
    e.CommitPlan? && e.plan in w.plans && w.plans[e.plan].job == j && Spoils(w.jobs[j], w.plans[e.plan].intent)
  }

  /** The only events that change a finished row. */
  lemma FinishedChangesExactlyBy(cfg: Config, w: World, e: Event, j: JobId)
    requires j in w.jobs && Finished(w.jobs[j].status)
    ensures j in Step(cfg, w, e).jobs
    ensures Step(cfg, w, e).jobs[j] != w.jobs[j] <==> Contradicts(w, e, j) || ComesLate(w, e, j)
  {
    if e.RecoverStale? {
      RecoverTouchesOnly(w.jobs, e.device, w.clock);
    }
  }

  /** Nobody has the finished job in memory, and no write that would change it is on its way. */
  ghost predicate Settled(w: World, j: JobId) {
    && j in w.jobs && Finished(w.jobs[j].status)
    && (forall v | v in w.busy :: w.busy[v].job != j)
    && (forall p | p in w.plans && w.plans[p].job == j :: !Spoils(w.jobs[j], w.plans[p].intent))
  }

  lemma SettledStays(cfg: Config, w: World, e: Event, j: JobId)
    requires Settled(w, j)
    ensures Settled(Step(cfg, w, e), j) && Step(cfg, w, e).jobs[j] == w.jobs[j]
  {
    FinishedChangesExactlyBy(cfg, w, e, j);
  }

  lemma {:induction false} SettledForever(cfg: Config, w: World, es: seq<Event>, j: JobId)
    requires Settled(w, j)
    ensures Settled(Run(cfg, w, es), j) && Run(cfg, w, es).jobs[j] == w.jobs[j]
  {
    if es != [] {
      SettledForever(cfg, w, es[..|es| - 1], j);
      SettledStays(cfg, Run(cfg, w, es[..|es| - 1]), es[|es| - 1], j);
    }
  }

  lemma UnsettledCanChange(cfg: Config, w: World, j: JobId) returns (e: Event)
    requires j in w.jobs && Finished(w.jobs[j].status) && !Settled(w, j)
    ensures j in Step(cfg, w, e).jobs && Step(cfg, w, e).jobs[j] != w.jobs[j]
  {
    if v :| v in w.busy && w.busy[v].job == j {
      e := Finish(v, if w.jobs[j].status == Failed then Completed else Failed);
    } else {
      var p :| p in w.plans && w.plans[p].job == j && Spoils(w.jobs[j], w.plans[p].intent);
      e := CommitPlan(p);
    }
    FinishedChangesExactlyBy(cfg, w, e, j);
  }

  /** A finished job's row stays as it is in every continuation exactly when the job is settled. */
  lemma FinishedIsFinalExactlyWhenSettled(cfg: Config, w: World, j: JobId)
    requires j in w.jobs && Finished(w.jobs[j].status)
    ensures Settled(w, j)
       <==> forall es :: j in Run(cfg, w, es).jobs && Run(cfg, w, es).jobs[j] == w.jobs[j]
  {
    if Settled(w, j) {
      forall es ensures j in Run(cfg, w, es).jobs && Run(cfg, w, es).jobs[j] == w.jobs[j] {
        SettledForever(cfg, w, es, j);
      }
    } else {
      var e := UnsettledCanChange(cfg, w, j);
      RunSnoc(cfg, w, [], e);
      assert Run(cfg, w, [] + [e]).jobs[j] != w.jobs[j];
    }
  }

  /** In every timely run a job that completed or failed stays as it is, whatever happens next, unless a cancellation
      that read it earlier has still to commit. */
  lemma FinishedIsFinal(cfg: Config, clock: int, es: seq<Event>, more: seq<Event>, j: JobId)
    requires TimelyRun(cfg, clock, es)
    requires var w := Run(cfg, Initial(clock), es);
             && j in w.jobs && (w.jobs[j].status == Completed || w.jobs[j].status == Failed)
             && forall p | p in w.plans :: w.plans[p].job != j
    ensures var w := Run(cfg, Initial(clock), es);
            j in Run(cfg, w, more).jobs && Run(cfg, w, more).jobs[j] == w.jobs[j]
  {
    var w := Run(cfg, Initial(clock), es);
    OwnershipIsExclusive(cfg, clock, es);
    forall v | v in w.busy ensures w.busy[v].job != j {
      assert Owns(w, v);
    }
    SettledForever(cfg, w, more, j);
  }
}
