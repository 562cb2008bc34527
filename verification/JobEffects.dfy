/** What the scheduler's transactions do to a row, and under which conditions, in terms of its columns. */
module JobEffects {
  import opened Common
  import opened JobTable
  import opened JobRuns
  import JobStore

  // -- Creating -----------------------------------------------------------------------------------------------------

  /** A tier raises the limit and never lowers it. */
  lemma TierOnlyRaisesTheLimit(u: User)
    ensures JobLimit(u) >= u.maxQueuedJobs
    ensures u.tierJobs.Some? && u.tierJobs.value > 0 ==> JobLimit(u) >= u.tierJobs.value
    ensures JobLimit(u) == u.maxQueuedJobs || u.tierJobs == Some(JobLimit(u))
  {
  }

  /** What the checks of create_job look at: the user's unfinished jobs, and those of the last 3600 seconds. */
  ghost predicate UnderQuota(t: Table, user: UserId, limit: int) {
    |set j | j in t && t[j].user == user && (t[j].status == Queued || t[j].status == Running)| < limit
  }

  ghost predicate UnderRate(t: Table, user: UserId, limit: int, now: int) {
    limit > 0 ==> |set j | j in t && t[j].user == user && now - 3600 <= t[j].createdAt| < limit
  }

  /** A job is accepted exactly if no check objects, and each refusal names the first check that does. */
  lemma RefusalNamesTheFirstCheck(cfg: Config, t: Table, user: UserId, device: DeviceId, fileOk: bool, now: int)
    ensures var refusal := Refusal(cfg, t, user, device, fileOk, now);
            var enabled := device in cfg.devices && cfg.devices[device];
            var known := enabled && user in cfg.users;
            var quota := known && UnderQuota(t, user, JobLimit(cfg.users[user]));
            var rate := quota && UnderRate(t, user, cfg.maxJobsPerHour, now);
            && (refusal == None <==> rate && fileOk)
            && (refusal == Some(NoDevice) <==> device !in cfg.devices)
            && (refusal == Some(DeviceDisabled) <==> device in cfg.devices && !enabled)
            && (refusal == Some(NoUser) <==> enabled && !known)
            && (refusal == Some(QuotaReached) <==> known && !quota)
            && (refusal == Some(RateLimited) <==> quota && !rate)
            && (refusal == Some(BadFile) <==> rate && !fileOk)
  {
    assert Pending(t, user)
        == set j | j in t && t[j].user == user && (t[j].status == Queued || t[j].status == Running);
    assert CreatedSince(t, user, now - 3600) == set j | j in t && t[j].user == user && now - 3600 <= t[j].createdAt;
  }

  /** No other row changes. */
  ghost predicate OnlyRow(t: Table, t': Table, j: JobId) {
    t'.Keys == t.Keys + {j} && forall k | k in t && k != j :: t'[k] == t[k]
  }

  /** A creation adds one row: queued, unclaimed, unflagged, with the priority asked for and the time it was made. */
  lemma CreateAddsAQueuedRow(cfg: Config, w: World, user: UserId, device: DeviceId, priority: int, fileOk: bool,
                             id: JobId)
    requires id !in w.jobs && Refusal(cfg, w.jobs, user, device, fileOk, w.clock).None?
    ensures var w' := Step(cfg, w, Create(user, device, priority, fileOk, id));
            && OnlyRow(w.jobs, w'.jobs, id)
            && w'.jobs[id] == Job(user, device, Queued, priority, w.clock, None, false)
            && w'.clock == w.clock && w'.busy == w.busy && w'.plans == w.plans
  {
  }

  // -- Claiming -----------------------------------------------------------------------------------------------------

  /** The claimed job is a queued, unflagged one of the device; no other such job has a higher priority, and none of the
      same priority is older. */
  lemma NextIsHighestThenOldest(t: Table, device: DeviceId, j: JobId)
    ensures IsNext(t, device, j)
       <==> && j in t && t[j].device == device && t[j].status == Queued && !t[j].cancelRequested
            && forall k | k in t && t[k].device == device && t[k].status == Queued && !t[k].cancelRequested ::
                 t[k].priority <= t[j].priority && (t[k].priority == t[j].priority ==> t[j].createdAt <= t[k].createdAt)
  {
    if IsNext(t, device, j) {
      forall k | k in t && t[k].device == device && t[k].status == Queued && !t[k].cancelRequested
        ensures t[k].priority <= t[j].priority && (t[k].priority == t[j].priority ==> t[j].createdAt <= t[k].createdAt)
      {
        assert Eligible(t, device, k);
      }
    }
  }

  /** A claim can happen on an enabled job port of the enabled device that runs fewer jobs than it may. */
  lemma ClaimNeedsARoomyPort(cfg: Config, w: World, worker: WorkerId, device: DeviceId, port: PortId, j: JobId)
    ensures Enabled(cfg, w, ClaimNext(worker, device, port, j))
       <==> && worker !in w.busy && IsNext(w.jobs, device, j)
            && device in cfg.devices && cfg.devices[device]
            && port in cfg.ports && cfg.ports[port].device == device
            && cfg.ports[port].forJobs && cfg.ports[port].enabled
            && |set k | k in w.jobs && w.jobs[k].status == Running && w.jobs[k].claim.Some?
                        && w.jobs[k].claim.value.port == port| < cfg.ports[port].maxConcurrent
  {
    assert RunningOn(w.jobs, port)
        == set k | k in w.jobs && w.jobs[k].status == Running && w.jobs[k].claim.Some?
                   && w.jobs[k].claim.value.port == port;
  }

  /** It makes the job run under the worker's claim for 300 seconds, and the worker remember it. */
  lemma ClaimStartsTheJob(cfg: Config, w: World, worker: WorkerId, device: DeviceId, port: PortId, j: JobId)
    requires Enabled(cfg, w, ClaimNext(worker, device, port, j))
    ensures var w' := Step(cfg, w, ClaimNext(worker, device, port, j));
            && OnlyRow(w.jobs, w'.jobs, j)
            && w'.jobs[j] == Job(w.jobs[j].user, device, Running, w.jobs[j].priority, w.jobs[j].createdAt,
                                 Some(Claim(port, worker, w.clock, w.clock + 300)), false)
            && w'.busy.Keys == w.busy.Keys + {worker} && w'.busy[worker] == Task(j, w.clock + 300)
            && (forall v | v in w.busy :: w'.busy[v] == w.busy[v]) && w'.clock == w.clock && w'.plans == w.plans
  {
  }

  // -- Outcomes and crashes -----------------------------------------------------------------------------------------

  /** An outcome sets the status of the worker's row and nothing else of it, its claim included; a crash leaves no
      trace in the table at all. */
  lemma OutcomeSetsTheStatus(cfg: Config, w: World, worker: WorkerId, outcome: Status)
    requires worker in w.busy && w.busy[worker].job in w.jobs
    requires outcome == Completed || outcome == Failed || outcome == Canceled
    ensures var w', j := Step(cfg, w, Finish(worker, outcome)), w.busy[worker].job;
            && OnlyRow(w.jobs, w'.jobs, j)
            && w'.jobs[j] == Job(w.jobs[j].user, w.jobs[j].device, outcome, w.jobs[j].priority, w.jobs[j].createdAt,
                                 w.jobs[j].claim, w.jobs[j].cancelRequested)
            && w'.busy.Keys == w.busy.Keys - {worker} && (forall v | v in w'.busy :: w'.busy[v] == w.busy[v])
            && w'.clock == w.clock && w'.plans == w.plans
    ensures Step(cfg, w, Crash(worker)).jobs == w.jobs && Step(cfg, w, Crash(worker)).busy == w.busy - {worker}
  {
  }

  // -- Recovery -----------------------------------------------------------------------------------------------------

  /** Running on the device under a lease that ended before now. */
  predicate LeaseEnded(job: Job, device: DeviceId, now: int) {
    job.device == device && job.status == Running && job.claim.Some? && job.claim.value.leaseExpires < now
  }

  /** If a flagged job's lease has ended, all such jobs are canceled and nothing else happens; otherwise every job whose
      lease has ended goes back to the queue.  Either way it loses its claim and keeps everything else. */
  lemma RecoveryCancelsOrRequeues(cfg: Config, w: World, device: DeviceId)
    ensures var t, t' := w.jobs, Step(cfg, w, RecoverStale(device)).jobs;
            var flagged := exists k :: k in t && LeaseEnded(t[k], device, w.clock) && t[k].cancelRequested;
            && t'.Keys == t.Keys
            && forall j | j in t ::
                 t'[j] == if LeaseEnded(t[j], device, w.clock) && t[j].cancelRequested
                          then Job(t[j].user, device, Canceled, t[j].priority, t[j].createdAt, None, true)
                          else if LeaseEnded(t[j], device, w.clock) && !flagged
                          then Job(t[j].user, device, Queued, t[j].priority, t[j].createdAt, None, false)
                          else t[j]
  {
    var t := w.jobs;
    RecoverTouchesOnly(t, device, w.clock);
    assert forall k | k in t :: Expired(t[k], device, w.clock) == LeaseEnded(t[k], device, w.clock);
    if k :| k in t && LeaseEnded(t[k], device, w.clock) && t[k].cancelRequested {
      assert k in StaleFlagged(t, device, w.clock);
    }
  }

  // -- Cancellation -------------------------------------------------------------------------------------------------

  /** Who may cancel what: the owner a queued job, an administrator also a running one, and each only once. */
  predicate MayCancel(job: Job, user: UserId, isAdmin: bool) {
    && !job.cancelRequested
    && ((job.status == Queued && (job.user == user || isAdmin)) || (job.status == Running && isAdmin))
  }

  /** A cancellation is granted exactly to those, and every refusal has its reason in the row. */
  lemma CancellationIsGrantedExactlyWhen(t: Table, j: JobId, user: UserId, isAdmin: bool)
    ensures var r := CancelDecision(t, j, user, isAdmin);
            && (r == NotFound <==> j !in t)
            && (j in t ==>
                  var mine := t[j].user == user || isAdmin;
                  var over := t[j].status == Completed || t[j].status == Failed || t[j].status == Canceled;
                  && (r == NotAuthorized <==> !mine)
                  && (r == AlreadyFinished <==> mine && over)
                  && (r == AlreadyRequested <==> mine && !over && t[j].cancelRequested)
                  && (r == JobCanceled <==> MayCancel(t[j], user, isAdmin) && t[j].status == Queued)
                  && (r == WillStop <==> MayCancel(t[j], user, isAdmin) && t[j].status == Running)
                  && (r == CannotCancel <==> mine && t[j].status == Running && !t[j].cancelRequested && !isAdmin)
                  && (Intended(r).Some? <==> MayCancel(t[j], user, isAdmin)))
  {
  }

  /** What a read leaves to be committed: nothing, unless the cancellation is granted. */
  lemma ReadPlansExactlyWhatIsGranted(cfg: Config, w: World, plan: PlanId, j: JobId, user: UserId, isAdmin: bool)
    requires plan !in w.plans
    ensures var w' := Step(cfg, w, CancelRead(plan, j, user, isAdmin));
            && w'.jobs == w.jobs && w'.busy == w.busy && w'.clock == w.clock
            && (j !in w.jobs || !MayCancel(w.jobs[j], user, isAdmin) ==> w'.plans == w.plans)
            && (j in w.jobs && MayCancel(w.jobs[j], user, isAdmin) ==>
                  var intent := if w.jobs[j].status == Queued then CancelQueued else FlagRunning;
                  w'.plans == w.plans[plan := Plan(j, intent)])
  {
    CancellationIsGrantedExactlyWhen(w.jobs, j, user, isAdmin);
  }

  /** What a commit writes: the flag and the status, the flag alone, or the status alone; nothing else of the row as
      it is by then, its claim included, and no other row. */
  lemma CommitWritesItsColumns(cfg: Config, w: World, plan: PlanId)
    requires plan in w.plans && w.plans[plan].job in w.jobs
    ensures var w', j, i := Step(cfg, w, CommitPlan(plan)), w.plans[plan].job, w.plans[plan].intent;
            && OnlyRow(w.jobs, w'.jobs, j)
            && w'.jobs[j] == Job(w.jobs[j].user, w.jobs[j].device,
                                 if i == FlagRunning then w.jobs[j].status else Canceled,
                                 w.jobs[j].priority, w.jobs[j].createdAt, w.jobs[j].claim,
                                 i != CancelOrphan || w.jobs[j].cancelRequested)
            && w'.plans == w.plans - {plan} && w'.busy == w.busy && w'.clock == w.clock
  {
  }

  /** The sweep picks exactly the queued, flagged jobs of its device. */
  lemma SweepPicksExactlyTheOrphans(cfg: Config, w: World, plan: PlanId, device: DeviceId, j: JobId)
    ensures Enabled(cfg, w, SweepRead(plan, device, j))
       <==> && plan !in w.plans && j in w.jobs
            && w.jobs[j].device == device && w.jobs[j].status == Queued && w.jobs[j].cancelRequested
    ensures Enabled(cfg, w, SweepRead(plan, device, j)) ==>
              Step(cfg, w, SweepRead(plan, device, j)) == w.(plans := w.plans[plan := Plan(j, CancelOrphan)])
  {
  }

  /** The k-th event of the run is a read of the job for cancellation by somebody who may cancel it then, with this
      intent. */
  ghost predicate GrantedAt(cfg: Config, clock: int, es: seq<Event>, k: nat, j: JobId, i: Intent) {
    && k < |es| && es[k].CancelRead? && es[k].job == j
    && (var t := Run(cfg, Initial(clock), es[..k]).jobs;
        && j in t && MayCancel(t[j], es[k].user, es[k].isAdmin)
        && i == if t[j].status == Queued then CancelQueued else FlagRunning)
  }

  ghost predicate SweptAt(cfg: Config, clock: int, es: seq<Event>, k: nat, j: JobId) {
    && k < |es| && es[k].SweepRead? && es[k].job == j
    && (var t := Run(cfg, Initial(clock), es[..k]).jobs;
        j in t && t[j].device == es[k].device && t[j].status == Queued && t[j].cancelRequested)
  }

  ghost predicate HasOrigin(cfg: Config, clock: int, es: seq<Event>, j: JobId, i: Intent) {
    if i == CancelOrphan then exists k :: SweptAt(cfg, clock, es, k, j)
    else exists k :: GrantedAt(cfg, clock, es, k, j, i)
  }

  lemma OriginStays(cfg: Config, clock: int, es: seq<Event>, e: Event, j: JobId, i: Intent)
    requires HasOrigin(cfg, clock, es, j, i)
    ensures HasOrigin(cfg, clock, es + [e], j, i)
  {
    assert forall k | 0 <= k <= |es| :: (es + [e])[..k] == es[..k];
    if i == CancelOrphan {
      var k :| SweptAt(cfg, clock, es, k, j);
      assert SweptAt(cfg, clock, es + [e], k, j);
    } else {
      var k :| GrantedAt(cfg, clock, es, k, j, i);
      assert GrantedAt(cfg, clock, es + [e], k, j, i);
    }
  }

  /** In every run, every write that is waiting to be committed was decided on by a read that was entitled to it: nobody
      else's request ever changes a row. */
  lemma {:induction false} EveryPlanHasAnOrigin(cfg: Config, clock: int, es: seq<Event>, p: PlanId)
    requires p in Run(cfg, Initial(clock), es).plans
    ensures var plan := Run(cfg, Initial(clock), es).plans[p]; HasOrigin(cfg, clock, es, plan.job, plan.intent)
  {
    if es != [] {
      var front, e := es[..|es| - 1], es[|es| - 1];
      var w := Run(cfg, Initial(clock), front);
      assert es == front + [e];
      if p in w.plans && Step(cfg, w, e).plans[p] == w.plans[p] {
        EveryPlanHasAnOrigin(cfg, clock, front, p);
        OriginStays(cfg, clock, front, e, w.plans[p].job, w.plans[p].intent);
      } else {
        NewPlanHasAnOrigin(cfg, clock, front, e, p);
      }
    }
  }

  lemma NewPlanHasAnOrigin(cfg: Config, clock: int, es: seq<Event>, e: Event, p: PlanId)
    requires var w := Run(cfg, Initial(clock), es);
             p in Step(cfg, w, e).plans && (p in w.plans ==> Step(cfg, w, e).plans[p] != w.plans[p])
    ensures var plan := Step(cfg, Run(cfg, Initial(clock), es), e).plans[p];
            HasOrigin(cfg, clock, es + [e], plan.job, plan.intent)
  {
    var w := Run(cfg, Initial(clock), es);
    var plan := Step(cfg, w, e).plans[p];
    assert (es + [e])[..|es|] == es;
    if e.CancelRead? {
      ReadPlansExactlyWhatIsGranted(cfg, w, e.plan, e.job, e.user, e.isAdmin);
      assert GrantedAt(cfg, clock, es + [e], |es|, plan.job, plan.intent);
    } else {
      assert SweptAt(cfg, clock, es + [e], |es|, plan.job);
    }
  }

  /** In every run, a job is flagged only if its owner, or an administrator, asked for that while it was queued, or an
      administrator while it ran. */
  lemma {:induction false} FlaggedOnlyByThoseWhoMay(cfg: Config, clock: int, es: seq<Event>, j: JobId)
    requires j in Run(cfg, Initial(clock), es).jobs && Run(cfg, Initial(clock), es).jobs[j].cancelRequested
    ensures exists k, i :: GrantedAt(cfg, clock, es, k, j, i)
  {
    if es != [] {
      var front, e := es[..|es| - 1], es[|es| - 1];
      var w := Run(cfg, Initial(clock), front);
      assert es == front + [e];
      if j in w.jobs && w.jobs[j].cancelRequested {
        FlaggedOnlyByThoseWhoMay(cfg, clock, front, j);
        var k, i :| GrantedAt(cfg, clock, front, k, j, i);
        assert i != CancelOrphan;
        OriginStays(cfg, clock, front, e, j, i);
      } else {
        FlagComesFromACommit(cfg, w, e, j);
        EveryPlanHasAnOrigin(cfg, clock, front, e.plan);
        OriginStays(cfg, clock, front, e, j, w.plans[e.plan].intent);
      }
    }
  }

  lemma FlagComesFromACommit(cfg: Config, w: World, e: Event, j: JobId)
    requires j in Step(cfg, w, e).jobs && Step(cfg, w, e).jobs[j].cancelRequested
    requires !(j in w.jobs && w.jobs[j].cancelRequested)
    ensures e.CommitPlan? && e.plan in w.plans && w.plans[e.plan].job == j && w.plans[e.plan].intent != CancelOrphan
  {
    if e.RecoverStale? {
      RecoverTouchesOnly(w.jobs, e.device, w.clock);
    }
  }
}
