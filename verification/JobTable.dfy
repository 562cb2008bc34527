/** The job table that web requests and workers share, and the transactions on it. */
module JobTable {
  import opened Common

  datatype Status = Queued | Running | Completed | Failed | Canceled

  predicate Finished(s: Status) {
    s == Completed || s == Failed || s == Canceled
  }

  type JobId = nat
  type UserId = nat
  type DeviceId = nat
  type PortId = nat

  /** A worker process; the claimed_by column names its host, process id and device. */
  type WorkerId = nat

  /** The columns a claim sets and a recovery clears. */
  datatype Claim = Claim(port: PortId, worker: WorkerId, claimedAt: int, leaseExpires: int)

  datatype Job = Job(user: UserId, device: DeviceId, status: Status, priority: int, createdAt: int,
                     claim: Option<Claim>, cancelRequested: bool)

  type Table = map<JobId, Job>

  datatype Port = Port(device: DeviceId, forJobs: bool, enabled: bool, maxConcurrent: int)

  datatype User = User(maxQueuedJobs: int, tierJobs: Option<int>)

  /** What administrators configure; fixed while the model runs. */
  datatype Config = Config(devices: map<DeviceId, bool>, ports: map<PortId, Port>, users: map<UserId, User>,
                           maxJobsPerHour: int)

  const LEASE_SECONDS: int := 300
  const HOUR: int := 3600

  // -- Queries ------------------------------------------------------------------------------------------------------

  function RunningOn(t: Table, port: PortId): set<JobId> {
    set j | j in t && t[j].status == Running && t[j].claim.Some? && t[j].claim.value.port == port
  }

  /** Jobs that count against a user's quota. */
  function Pending(t: Table, user: UserId): set<JobId> {
    set j | j in t && t[j].user == user && (t[j].status == Queued || t[j].status == Running)
  }

  function CreatedSince(t: Table, user: UserId, lo: int): set<JobId> {
    set j | j in t && t[j].user == user && lo <= t[j].createdAt
  }

  /** get_user_quota: a supporter tier can only raise the limit. */
  function JobLimit(u: User): int {
    if u.tierJobs.Some? && u.tierJobs.value != 0 && u.tierJobs.value > u.maxQueuedJobs then u.tierJobs.value
    else u.maxQueuedJobs
  }

  /** Queued jobs of a device that nobody asked to cancel. */
  predicate Eligible(t: Table, device: DeviceId, j: JobId) {
    j in t && t[j].device == device && t[j].status == Queued && !t[j].cancelRequested
  }

  /** ORDER BY priority DESC, created_at ASC */
  predicate ComesBefore(a: Job, b: Job) {
    a.priority > b.priority || (a.priority == b.priority && a.createdAt < b.createdAt)
  }

  /** A job the claiming query may return: eligible, with no eligible job before it. */
  ghost predicate IsNext(t: Table, device: DeviceId, j: JobId) {
    Eligible(t, device, j) && forall k | k in t :: Eligible(t, device, k) ==> !ComesBefore(t[k], t[j])
  }

  /** An enabled job port of an enabled device. */
  predicate Serves(cfg: Config, device: DeviceId, port: PortId) {
    device in cfg.devices && cfg.devices[device]
    && port in cfg.ports && cfg.ports[port].device == device && cfg.ports[port].forJobs && cfg.ports[port].enabled
  }

  predicate HasRoom(cfg: Config, t: Table, port: PortId) {
    port in cfg.ports && |RunningOn(t, port)| < cfg.ports[port].maxConcurrent
  }

  // -- Transactions -------------------------------------------------------------------------------------------------

  predicate Expired(job: Job, device: DeviceId, now: int) {
    job.device == device && job.status == Running && job.claim.Some? && job.claim.value.leaseExpires < now
  }

  function Stale(t: Table, device: DeviceId, now: int): set<JobId> {
    set j | j in t && Expired(t[j], device, now)
  }

  function StaleFlagged(t: Table, device: DeviceId, now: int): set<JobId> {
    set j | j in t && Expired(t[j], device, now) && t[j].cancelRequested
  }

  /** UPDATE ... SET status = ?, and every claim column to NULL */
  function Release(t: Table, rows: set<JobId>, status: Status): Table {
    map j | j in t :: if j in rows then t[j].(status := status, claim := None) else t[j]
  }

  /** One pass of recover_stale_jobs.  If any stale job is flagged, only the flagged ones are dealt with. */
  function Recover(t: Table, device: DeviceId, now: int): Table {
    if StaleFlagged(t, device, now) != {} then Release(t, StaleFlagged(t, device, now), Canceled)
    else Release(t, Stale(t, device, now), Queued)
  }

  /** The rows one pass touches. */
  function Recovered(t: Table, device: DeviceId, now: int): set<JobId> {
    if StaleFlagged(t, device, now) != {} then StaleFlagged(t, device, now) else Stale(t, device, now)
  }

  function ClaimRow(t: Table, j: JobId, port: PortId, worker: WorkerId, now: int): Table
    requires j in t
  {
    t[j := t[j].(status := Running, claim := Some(Claim(port, worker, now, now + LEASE_SECONDS)))]
  }

  function SetStatus(t: Table, j: JobId, status: Status): Table
    requires j in t
  {
    t[j := t[j].(status := status)]
  }

  function NewJob(user: UserId, device: DeviceId, priority: int, now: int): Job {
    Job(user, device, Queued, priority, now, None, false)
  }

  datatype CreateError = NoDevice | DeviceDisabled | NoUser | QuotaReached | RateLimited | BadFile

  /** Why create_job refuses, in the order in which it checks. */
  function Refusal(cfg: Config, t: Table, user: UserId, device: DeviceId, fileOk: bool, now: int): Option<CreateError> {
    if device !in cfg.devices then Some(NoDevice)
    else if !cfg.devices[device] then Some(DeviceDisabled)
    else if user !in cfg.users then Some(NoUser)
    else if |Pending(t, user)| >= JobLimit(cfg.users[user]) then Some(QuotaReached)
    else if cfg.maxJobsPerHour > 0 && |CreatedSince(t, user, now - HOUR)| >= cfg.maxJobsPerHour then Some(RateLimited)
    else if !fileOk then Some(BadFile)
    else None
  }

  datatype CancelReply = NotFound | NotAuthorized | AlreadyFinished | AlreadyRequested | JobCanceled | WillStop
                       | CannotCancel

  /** What cancel_job answers, from the row as it reads it. */
  function CancelDecision(t: Table, j: JobId, user: UserId, isAdmin: bool): CancelReply {
    if j !in t then NotFound
    else if t[j].user != user && !isAdmin then NotAuthorized
    else if Finished(t[j].status) then AlreadyFinished
    else if t[j].cancelRequested then AlreadyRequested
    else if t[j].status == Queued then JobCanceled
    else if isAdmin then WillStop
    else CannotCancel
  }

  /** What somebody who read a row has decided to write to it: a cancellation that found it queued, one that found it
      running, or the orphan sweep.  By the time of the commit the row may look different. */
  datatype Intent = CancelQueued | FlagRunning | CancelOrphan

  function Intended(reply: CancelReply): Option<Intent> {
    match reply
    case JobCanceled => Some(CancelQueued)
    case WillStop => Some(FlagRunning)
    case _ => None
  }

  /** The columns the commit sets; all others stay as they are by then. */
  function Overwrite(job: Job, i: Intent): Job {
    match i
    case CancelQueued => job.(cancelRequested := true, status := Canceled)
    case FlagRunning => job.(cancelRequested := true)
    case CancelOrphan => job.(status := Canceled)
  }

  function Commit(t: Table, j: JobId, i: Intent): Table {
    if j in t then t[j := Overwrite(t[j], i)] else t
  }

  /** A queued job that is flagged: no worker will ever claim it. */
  predicate Orphaned(job: Job) {
    job.status == Queued && job.cancelRequested
  }

  // -- What the queries and transactions guarantee ------------------------------------------------------------------

  /** If anything is eligible, something comes first. */
  lemma {:induction false} SomeJobIsNext(t: Table, device: DeviceId, candidates: set<JobId>) returns (best: JobId)
    requires candidates != {} && forall j | j in candidates :: Eligible(t, device, j)
    ensures best in candidates && candidates <= t.Keys
    ensures forall k | k in candidates :: !ComesBefore(t[k], t[best])
  {
    var j :| j in candidates;
    best := j;
    if candidates != {j} {
      assert candidates - {j} != {} by {
        var k :| k in candidates && k != j;
        assert k in candidates - {j};
      }
      var rest := SomeJobIsNext(t, device, candidates - {j});
      best := if ComesBefore(t[j], t[rest]) then j else rest;
      forall k | k in candidates ensures !ComesBefore(t[k], t[best]) {
        if k != j { assert k in candidates - {j}; }
      }
    }
  }

  /** There is a next job exactly when there is an eligible one. */
  lemma NextExistsExactlyWhenEligible(t: Table, device: DeviceId)
    ensures (exists j :: IsNext(t, device, j)) <==> (exists j :: Eligible(t, device, j))
  {
    if j :| Eligible(t, device, j) {
      var all := set k | k in t && Eligible(t, device, k);
      assert j in all;
      var best := SomeJobIsNext(t, device, all);
      assert IsNext(t, device, best);
    }
  }

  /** One pass leaves an expired job running exactly when flagged and unflagged expired jobs coexist. */
  lemma OnePassSufficesExactlyWhenNotMixed(t: Table, device: DeviceId, now: int)
    ensures Stale(Recover(t, device, now), device, now) == {}
       <==> StaleFlagged(t, device, now) == {} || StaleFlagged(t, device, now) == Stale(t, device, now)
  {
    var t' := Recover(t, device, now);
    var stale, flagged := Stale(t, device, now), StaleFlagged(t, device, now);
    assert forall j | j in stale :: j in Recovered(t, device, now) || t'[j] == t[j];
    if flagged != {} && flagged != stale {
      var j :| j in stale && j !in flagged;
      assert j in Stale(t', device, now);
    }
  }

  const FLAGGED := Job(0, 0, Running, 0, 1, Some(Claim(0, 1, 1, 301)), true)
  const UNFLAGGED := FLAGGED.(cancelRequested := false)

  /** A table that one pass does not clear. */
  lemma OnePassLeavesAnExpiredJob()
    ensures var t := map[1 := FLAGGED, 2 := UNFLAGGED];
            Recover(t, 0, 302)[1].status == Canceled && Stale(Recover(t, 0, 302), 0, 302) == {2}
  {
    var t := map[1 := FLAGGED, 2 := UNFLAGGED];
    assert StaleFlagged(t, 0, 302) == {1};
  }

  /** Two passes at one instant leave no expired job running; the flagged ones end up canceled, the others queued, and
      nothing else changes. */
  lemma TwoPassesRecoverAll(t: Table, device: DeviceId, now: int)
    ensures var t' := Recover(Recover(t, device, now), device, now);
            && t'.Keys == t.Keys
            && Stale(t', device, now) == {}
            && forall j | j in t ::
                 t'[j] == if !Expired(t[j], device, now) then t[j]
                          else t[j].(status := if t[j].cancelRequested then Canceled else Queued, claim := None)
  {
    var t1 := Recover(t, device, now);
    if StaleFlagged(t, device, now) != {} {
      assert StaleFlagged(t1, device, now) == {};
    } else {
      assert Stale(t1, device, now) == {};
      assert Recover(t1, device, now) == t1;
    }
  }

  lemma RecoverTouchesOnly(t: Table, device: DeviceId, now: int)
    ensures var t' := Recover(t, device, now);
            && t'.Keys == t.Keys
            && forall j | j in t ::
                 if j in Recovered(t, device, now)
                 then Expired(t[j], device, now)
                      && t'[j] == t[j].(status := if t[j].cancelRequested then Canceled else Queued, claim := None)
                 else t'[j] == t[j]
  {
    assert forall j | j in t && Expired(t[j], device, now) && t[j].cancelRequested :: j in StaleFlagged(t, device, now);
  }
}
