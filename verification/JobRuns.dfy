/** Every interleaving of web requests, workers, crashes and recoveries on one job table. */
module JobRuns {
  import opened Common
  import opened JobTable
  import JobStore

  /** What a live worker process has in memory while it runs a job. */
  datatype Task = Task(job: JobId, deadline: int)

  type PlanId = nat

  /** A write to a row that was decided on when the row was read, and is still to be committed. */
  datatype Plan = Plan(job: JobId, intent: Intent)

  /** The table, the clock, which live workers are running which jobs, and the writes decided but not yet committed. */
  datatype World = World(clock: int, jobs: Table, busy: map<WorkerId, Task>, plans: map<PlanId, Plan>)

  /** One committed transaction, or a change outside the database.  The row a claim picks among equals is part of the
      event, and so are fresh ids.  Cancellations and the orphan sweep read a row first and commit later. */
  datatype Event =
    | Tick(seconds: nat)
    | Create(user: UserId, device: DeviceId, priority: int, fileOk: bool, id: JobId)
    | CancelRead(plan: PlanId, job: JobId, user: UserId, isAdmin: bool)
    | SweepRead(plan: PlanId, device: DeviceId, job: JobId)
    | CommitPlan(plan: PlanId)
    | RecoverStale(device: DeviceId)
    | ClaimNext(worker: WorkerId, device: DeviceId, port: PortId, job: JobId)
    | Finish(worker: WorkerId, outcome: Status)
    | Crash(worker: WorkerId)

  /** Whether the event can happen now. */
  ghost predicate Enabled(cfg: Config, w: World, e: Event) {
    match e
    case Tick(_) => true
    case Create(user, device, _, fileOk, id) =>
      id !in w.jobs && Refusal(cfg, w.jobs, user, device, fileOk, w.clock).None?
    case CancelRead(plan, _, _, _) => plan !in w.plans
    case SweepRead(plan, device, job) => plan !in w.plans && job in w.jobs && JobStore.OrphanOf(w.jobs[job], device)
    case CommitPlan(plan) => plan in w.plans
    case RecoverStale(_) => true
    case ClaimNext(worker, device, port, job) =>
      worker !in w.busy && Serves(cfg, device, port) && HasRoom(cfg, w.jobs, port) && IsNext(w.jobs, device, job)
    case Finish(worker, outcome) => worker in w.busy && w.busy[worker].job in w.jobs && Finished(outcome)
    case Crash(_) => true
  }

  /** The outcome is written by row id alone: nothing checks that the worker still holds the job. */
  ghost function Apply(cfg: Config, w: World, e: Event): World
    requires Enabled(cfg, w, e)
  {
    match e
    case Tick(seconds) => w.(clock := w.clock + seconds)
    case Create(user, device, priority, _, id) => w.(jobs := w.jobs[id := NewJob(user, device, priority, w.clock)])
    case CancelRead(plan, job, user, isAdmin) =>
      var intent := Intended(CancelDecision(w.jobs, job, user, isAdmin));
      if intent.Some? then w.(plans := w.plans[plan := Plan(job, intent.value)]) else w
    case SweepRead(plan, _, job) => w.(plans := w.plans[plan := Plan(job, CancelOrphan)])
    case CommitPlan(plan) =>
      w.(jobs := Commit(w.jobs, w.plans[plan].job, w.plans[plan].intent), plans := w.plans - {plan})
    case RecoverStale(device) => w.(jobs := Recover(w.jobs, device, w.clock))
    case ClaimNext(worker, _, port, job) =>
      w.(jobs := ClaimRow(w.jobs, job, port, worker, w.clock),
         busy := w.busy[worker := Task(job, w.clock + LEASE_SECONDS)])
    case Finish(worker, outcome) =>
      w.(jobs := SetStatus(w.jobs, w.busy[worker].job, outcome), busy := w.busy - {worker})
    case Crash(worker) => w.(busy := w.busy - {worker})
  }

  ghost function Step(cfg: Config, w: World, e: Event): World {
    if Enabled(cfg, w, e) then Apply(cfg, w, e) else w
  }

  ghost function Run(cfg: Config, w: World, es: seq<Event>): World {
    if es == [] then w else Step(cfg, Run(cfg, w, es[..|es| - 1]), es[|es| - 1])
  }

  lemma RunSnoc(cfg: Config, w: World, es: seq<Event>, e: Event)
    ensures Run(cfg, w, es + [e]) == Step(cfg, Run(cfg, w, es), e)
  {
    assert (es + [e])[..|es|] == es;
  }

  lemma PrefixStep(cfg: Config, w: World, es: seq<Event>, k: nat)
    requires k < |es|
    ensures Run(cfg, w, es[..k + 1]) == Step(cfg, Run(cfg, w, es[..k]), es[k])
  {
    assert es[..k + 1] == es[..k] + [es[k]];
    RunSnoc(cfg, w, es[..k], es[k]);
  }

  function Initial(clock: int): World {
    World(clock, map[], map[], map[])
  }

  /** The transactions of a successful claim_job, recovery and claim, are two events at one instant, so what holds in
      every run holds between them too. */
  lemma ClaimJobIsARun(cfg: Config, w: World, worker: WorkerId, device: DeviceId, port: PortId, j: JobId)
    requires worker !in w.busy && Serves(cfg, device, port)
    requires var t := Recover(w.jobs, device, w.clock); HasRoom(cfg, t, port) && IsNext(t, device, j)
    ensures var w' := Run(cfg, w, [RecoverStale(device), ClaimNext(worker, device, port, j)]);
            && w'.jobs == ClaimRow(Recover(w.jobs, device, w.clock), j, port, worker, w.clock)
            && w'.clock == w.clock && w'.plans == w.plans
            && w'.busy == w.busy[worker := Task(j, w.clock + LEASE_SECONDS)]
  {
    var es := [RecoverStale(device), ClaimNext(worker, device, port, j)];
    assert es[..1] == [RecoverStale(device)] && es[..1][..0] == [];
    assert Run(cfg, w, es[..1]) == Step(cfg, Run(cfg, w, []), RecoverStale(device));
  }

  // -- Invariants of all runs ---------------------------------------------------------------------------------------

  /** Queued rows carry no claim; running rows carry one; no row is from the future. */
  ghost predicate RowsOk(w: World) {
    forall j | j in w.jobs ::
      && (w.jobs[j].status == Queued ==> w.jobs[j].claim.None?)
      && (w.jobs[j].status == Running ==> w.jobs[j].claim.Some?)
      && w.jobs[j].createdAt <= w.clock
  }

  /** No port runs more jobs than it may. */
  ghost predicate CapacityOk(cfg: Config, w: World) {
    forall p | RunningOn(w.jobs, p) != {} ::
      p in cfg.ports && |RunningOn(w.jobs, p)| <= cfg.ports[p].maxConcurrent
  }

  /** No user has more queued and running jobs than the quota. */
  ghost predicate QuotaOk(cfg: Config, w: World) {
    forall u | Pending(w.jobs, u) != {} :: u in cfg.users && |Pending(w.jobs, u)| <= JobLimit(cfg.users[u])
  }

  /** A user's jobs created in the closed hour that starts at `lo`. */
  function CreatedInHour(t: Table, user: UserId, lo: int): set<JobId> {
    set j | j in t && t[j].user == user && lo <= t[j].createdAt <= lo + HOUR
  }

  /** No hour, wherever it starts, saw a user create more jobs than the hourly limit. */
  ghost predicate RateOk(cfg: Config, w: World) {
    cfg.maxJobsPerHour > 0 ==> forall u, lo :: |CreatedInHour(w.jobs, u, lo)| <= cfg.maxJobsPerHour
  }

  predicate IsPending(job: Job) {
    job.status == Queued || job.status == Running
  }

  /** The same job later: finished jobs stay out of the queue, and the flag is never taken back. */
  predicate Later(a: Job, b: Job) {
    b.user == a.user && b.device == a.device && b.priority == a.priority && b.createdAt == a.createdAt
    && (a.cancelRequested ==> b.cancelRequested) && (IsPending(b) ==> IsPending(a))
  }

  ghost predicate Adds(cfg: Config, w: World, e: Event, j: JobId) {
    Enabled(cfg, w, e) && e.Create? && e.id == j
  }

  ghost predicate Starts(cfg: Config, w: World, e: Event, j: JobId) {
    Enabled(cfg, w, e) && e.ClaimNext? && e.job == j
  }

  /** What one event can do to the rows: a creation adds one queued row, a claim starts one queued job, and nothing else
      makes a job run or brings a finished one back, however late a cancellation commits. */
  lemma RowsStep(cfg: Config, w: World, e: Event)
    requires RowsOk(w)
    ensures var w' := Step(cfg, w, e);
            && w.jobs.Keys <= w'.jobs.Keys
            && (forall j | j in w'.jobs.Keys - w.jobs.Keys ::
                  Adds(cfg, w, e, j) && w'.jobs[j] == NewJob(e.user, e.device, e.priority, w.clock))
            && (forall j | j in w.jobs ::
                  && Later(w.jobs[j], w'.jobs[j])
                  && (w'.jobs[j].status == Running && !Starts(cfg, w, e, j) ==>
                        w.jobs[j].status == Running && w'.jobs[j].claim == w.jobs[j].claim))
  {
    if Enabled(cfg, w, e) && e.RecoverStale? {
      RecoverTouchesOnly(w.jobs, e.device, w.clock);
    }
  }

  lemma RowsStayOk(cfg: Config, w: World, e: Event)
    requires RowsOk(w)
    ensures RowsOk(Step(cfg, w, e))
  {
    if Enabled(cfg, w, e) && e.RecoverStale? {
      RecoverTouchesOnly(w.jobs, e.device, w.clock);
    }
  }

  lemma CapacityStep(cfg: Config, w: World, e: Event)
    requires RowsOk(w) && CapacityOk(cfg, w)
    ensures CapacityOk(cfg, Step(cfg, w, e))
  {
    var w' := Step(cfg, w, e);
    RowsStep(cfg, w, e);
    forall p | RunningOn(w'.jobs, p) != {}
      ensures p in cfg.ports && |RunningOn(w'.jobs, p)| <= cfg.ports[p].maxConcurrent
    {
      if Enabled(cfg, w, e) && e.ClaimNext? && e.port == p {
        ClaimAddsOne(cfg, w, e);
      } else {
        RunningShrinks(cfg, w, e, p);
        SubsetCard(RunningOn(w'.jobs, p), RunningOn(w.jobs, p));
      }
    }
  }

  lemma ClaimAddsOne(cfg: Config, w: World, e: Event)
    requires RowsOk(w) && e.ClaimNext? && Enabled(cfg, w, e)
    ensures RunningOn(Step(cfg, w, e).jobs, e.port) == RunningOn(w.jobs, e.port) + {e.job}
  {
  }

  lemma RunningShrinks(cfg: Config, w: World, e: Event, p: PortId)
    requires RowsOk(w) && !(Enabled(cfg, w, e) && e.ClaimNext? && e.port == p)
    ensures RunningOn(Step(cfg, w, e).jobs, p) <= RunningOn(w.jobs, p)
  {
    RowsStep(cfg, w, e);
    var t, t' := w.jobs, Step(cfg, w, e).jobs;
    forall j | j in RunningOn(t', p) ensures j in RunningOn(t, p) {
      assert j in t;
    }
  }

  lemma QuotaStep(cfg: Config, w: World, e: Event)
    requires RowsOk(w) && QuotaOk(cfg, w)
    ensures QuotaOk(cfg, Step(cfg, w, e))
  {
    RowsStep(cfg, w, e);
    var t, t' := w.jobs, Step(cfg, w, e).jobs;
    forall u | Pending(t', u) != {} ensures u in cfg.users && |Pending(t', u)| <= JobLimit(cfg.users[u]) {
      PendingStep(cfg, w, e, u);
      if !(Enabled(cfg, w, e) && e.Create? && e.user == u) {
        SubsetCard(Pending(t', u), Pending(t, u));
      }
    }
  }

  lemma PendingStep(cfg: Config, w: World, e: Event, u: UserId)
    requires RowsOk(w)
    ensures var t, t' := w.jobs, Step(cfg, w, e).jobs;
            if Enabled(cfg, w, e) && e.Create? && e.user == u then Pending(t', u) == Pending(t, u) + {e.id}
            else Pending(t', u) <= Pending(t, u)
  {
    var t, t' := w.jobs, Step(cfg, w, e).jobs;
    if Enabled(cfg, w, e) && e.Create? && e.user == u {
      assert t' == t[e.id := NewJob(u, e.device, e.priority, w.clock)];
    } else {
      RowsStep(cfg, w, e);
      forall j | j in Pending(t', u) ensures j in Pending(t, u) {
        assert j in t && IsPending(t'[j]);
      }
    }
  }

  lemma CreatedStep(cfg: Config, w: World, e: Event, u: UserId, lo: int)
    requires RowsOk(w)
    ensures var before, after := CreatedInHour(w.jobs, u, lo), CreatedInHour(Step(cfg, w, e).jobs, u, lo);
            if Enabled(cfg, w, e) && e.Create? && e.user == u && lo <= w.clock <= lo + HOUR
            then after == before + {e.id} && before <= CreatedSince(w.jobs, u, w.clock - HOUR)
            else after == before
  {
    RowsStep(cfg, w, e);
  }

  lemma RateStep(cfg: Config, w: World, e: Event)
    requires RowsOk(w) && RateOk(cfg, w)
    ensures RateOk(cfg, Step(cfg, w, e))
  {
    var w' := Step(cfg, w, e);
    if cfg.maxJobsPerHour > 0 {
      forall u, lo ensures |CreatedInHour(w'.jobs, u, lo)| <= cfg.maxJobsPerHour {
        var before := CreatedInHour(w.jobs, u, lo);
        CreatedStep(cfg, w, e, u, lo);
        if Enabled(cfg, w, e) && e.Create? && e.user == u && lo <= w.clock <= lo + HOUR {
          SubsetCard(before, CreatedSince(w.jobs, u, w.clock - HOUR));
        }
      }
    }
  }

  /** In every run: capacity, quota and hourly rate are respected, and rows keep their shape.  No assumption is made
      about crashes, slow workers or lapsed leases. */
  lemma {:induction false} LimitsHoldInEveryRun(cfg: Config, clock: int, es: seq<Event>)
    ensures var w := Run(cfg, Initial(clock), es);
            RowsOk(w) && CapacityOk(cfg, w) && QuotaOk(cfg, w) && RateOk(cfg, w)
  {
    if es == [] {
      assert forall p :: RunningOn(map[], p) == {};
      assert forall u :: Pending(map[], u) == {};
      assert forall u, lo :: CreatedInHour(map[], u, lo) == {};
    } else {
      var front, e := es[..|es| - 1], es[|es| - 1];
      LimitsHoldInEveryRun(cfg, clock, front);
      var w := Run(cfg, Initial(clock), front);
      RowsStayOk(cfg, w, e);
      CapacityStep(cfg, w, e);
      QuotaStep(cfg, w, e);
      RateStep(cfg, w, e);
    }
  }

  // -- Cancellation -------------------------------------------------------------------------------------------------

  lemma FlagStays(cfg: Config, w: World, e: Event, j: JobId)
    requires j in w.jobs && w.jobs[j].cancelRequested
    ensures j in Step(cfg, w, e).jobs && Step(cfg, w, e).jobs[j].cancelRequested
  {
  }

  /** A flagged job stays flagged for good and is never claimed again. */
  lemma {:induction false} CancellationIsSticky(cfg: Config, w: World, es: seq<Event>, j: JobId)
    requires j in w.jobs && w.jobs[j].cancelRequested
    ensures var w' := Run(cfg, w, es);
            && j in w'.jobs && w'.jobs[j].cancelRequested
            && forall e: Event | e.ClaimNext? && e.job == j :: !Enabled(cfg, w', e)
  {
    if es != [] {
      CancellationIsSticky(cfg, w, es[..|es| - 1], j);
      FlagStays(cfg, Run(cfg, w, es[..|es| - 1]), es[|es| - 1], j);
    }
  }

  predicate IsOrphan(w: World, j: JobId) {
    j in w.jobs && Orphaned(w.jobs[j])
  }

  /** A cancellation that read the job as running commits when it is back in the queue. */
  predicate FlagsTooLate(w: World, e: Event, j: JobId) {
    && e.CommitPlan? && e.plan in w.plans && w.plans[e.plan] == Plan(j, FlagRunning)
    && j in w.jobs && w.jobs[j].status == Queued
  }

  /** That is the one way in which a job becomes queued and flagged. */
  lemma OrphanAppearsExactlyWhenFlaggedTooLate(cfg: Config, w: World, e: Event, j: JobId)
    requires RowsOk(w) && !IsOrphan(w, j)
    ensures IsOrphan(Step(cfg, w, e), j) <==> FlagsTooLate(w, e, j)
  {
    if Enabled(cfg, w, e) && e.RecoverStale? {
      RecoverTouchesOnly(w.jobs, e.device, w.clock);
    }
  }

  /** And the sweep, or a write by row id that was on its way already, is the only way out: no worker claims it and no
      recovery reaches it. */
  lemma OrphanLeavesExactlyBy(cfg: Config, w: World, e: Event, j: JobId)
    requires IsOrphan(w, j)
    ensures !IsOrphan(Step(cfg, w, e), j)
       <==> || (e.CommitPlan? && e.plan in w.plans && w.plans[e.plan].job == j && w.plans[e.plan].intent != FlagRunning)
            || (e.Finish? && e.worker in w.busy && w.busy[e.worker].job == j && Finished(e.outcome))
  {
    if Enabled(cfg, w, e) && e.RecoverStale? {
      RecoverTouchesOnly(w.jobs, e.device, w.clock);
    }
  }

  lemma NoOrphanUntil(cfg: Config, clock: int, es: seq<Event>, j: JobId, k: nat)
    requires k <= |es|
    requires forall i | 0 <= i < k :: !FlagsTooLate(Run(cfg, Initial(clock), es[..i]), es[i], j)
    ensures !IsOrphan(Run(cfg, Initial(clock), es[..k]), j)
  {
    if k > 0 {
      NoOrphanUntil(cfg, clock, es, j, k - 1);
      LimitsHoldInEveryRun(cfg, clock, es[..k - 1]);
      PrefixStep(cfg, Initial(clock), es, k - 1);
      OrphanAppearsExactlyWhenFlaggedTooLate(cfg, Run(cfg, Initial(clock), es[..k - 1]), es[k - 1], j);
    }
  }

  /** So no orphan ever appears in a run, for the sweep to find, exactly when no cancellation in it is too late. */
  lemma NoOrphansExactlyWhenNoneFlaggedTooLate(cfg: Config, clock: int, es: seq<Event>, j: JobId)
    ensures (forall k | 0 <= k <= |es| :: !IsOrphan(Run(cfg, Initial(clock), es[..k]), j))
       <==> (forall k | 0 <= k < |es| :: !FlagsTooLate(Run(cfg, Initial(clock), es[..k]), es[k], j))
  {
    if forall k | 0 <= k < |es| :: !FlagsTooLate(Run(cfg, Initial(clock), es[..k]), es[k], j) {
      forall k | 0 <= k <= |es| ensures !IsOrphan(Run(cfg, Initial(clock), es[..k]), j) {
        NoOrphanUntil(cfg, clock, es, j, k);
      }
    } else {
      var k :| 0 <= k < |es| && FlagsTooLate(Run(cfg, Initial(clock), es[..k]), es[k], j);
      PrefixStep(cfg, Initial(clock), es, k);
      LimitsHoldInEveryRun(cfg, clock, es[..k]);
      if !IsOrphan(Run(cfg, Initial(clock), es[..k]), j) {
        OrphanAppearsExactlyWhenFlaggedTooLate(cfg, Run(cfg, Initial(clock), es[..k]), es[k], j);
        assert IsOrphan(Run(cfg, Initial(clock), es[..k + 1]), j);
      }
    }
  }
}
