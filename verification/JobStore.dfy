/** The scheduler's operations as the web process and the workers perform them, in place on the job table. */
module JobStore {
  import opened Common
  import opened JobTable

  class Store {
    var jobs: Table

    constructor ()
      ensures jobs == map[]
    {
      jobs := map[];
    }

    /** recover_stale_jobs: cancel the flagged stale jobs and stop there, or requeue all stale jobs. */
    method RecoverStaleJobs(device: DeviceId, now: int)
      modifies this
      ensures jobs == Recover(old(jobs), device, now)
    {
      var flagged := StaleFlagged(jobs, device, now);
      if flagged != {} {
        jobs := Release(jobs, flagged, Canceled);
        return;
      }
      jobs := Release(jobs, Stale(jobs, device, now), Queued);
    }

    /** The inner query of a claim: any of the jobs that sort first, if there is one. */
    method PickNext(device: DeviceId) returns (next: Option<JobId>)
      ensures next.None? <==> forall j :: !Eligible(jobs, device, j)
      ensures next.Some? ==> IsNext(jobs, device, next.value)
    {
      var candidates := set j | j in jobs && Eligible(jobs, device, j);
      next := None;
      var todo := candidates;
      while todo != {}
        invariant todo <= candidates
        invariant next.None? ==> todo == candidates
        invariant next.Some? ==> next.value in candidates
        invariant next.Some? ==> forall k | k in candidates - todo :: !ComesBefore(jobs[k], jobs[next.value])
        decreases todo
      {
        var j :| j in todo;
        if next.None? || ComesBefore(jobs[j], jobs[next.value]) {
          next := Some(j);
        }
        todo := todo - {j};
      }
      if next.None? {
        assert forall j :: Eligible(jobs, device, j) ==> j in candidates;
      }
    }

    /** claim_job: recover, then try the device's job ports in turn.  `ports` lists the enabled job ports of the device
        in the order the query returns them. */
    method ClaimJob(cfg: Config, device: DeviceId, ports: seq<PortId>, worker: WorkerId, now: int)
      returns (claimed: Option<JobId>)
      requires forall p :: p in ports <==> Serves(cfg, device, p)
      modifies this
      ensures var up := device in cfg.devices && cfg.devices[device];
              var t := if up then Recover(old(jobs), device, now) else old(jobs);
              && (claimed.None? <==> !up || (forall j :: !Eligible(t, device, j))
                                     || (forall p :: Serves(cfg, device, p) ==> !HasRoom(cfg, t, p)))
              && (claimed.None? ==> jobs == t)
              && (claimed.Some? ==>
                    && IsNext(t, device, claimed.value)
                    && exists i | 0 <= i < |ports| ::
                         && HasRoom(cfg, t, ports[i])
                         && (forall k | 0 <= k < i :: !HasRoom(cfg, t, ports[k]))
                         && jobs == ClaimRow(t, claimed.value, ports[i], worker, now))
    {
      claimed := None;
      if device !in cfg.devices || !cfg.devices[device] {
        return;
      }
      RecoverStaleJobs(device, now);
      ghost var t := jobs;
      var i := 0;
      while i < |ports|
        invariant 0 <= i <= |ports| && jobs == t
        invariant (forall j :: !Eligible(t, device, j)) || forall k | 0 <= k < i :: !HasRoom(cfg, t, ports[k])
      {
        var port := ports[i];
        assert Serves(cfg, device, port);
        if |RunningOn(jobs, port)| < cfg.ports[port].maxConcurrent {
          var next := PickNext(device);
          if next.Some? {
            jobs := ClaimRow(jobs, next.value, port, worker, now);
            return next;
          }
        }
        i := i + 1;
      }
    }

    /** create_job, from the quota check under BEGIN IMMEDIATE to the commit.  `id` is the fresh row id. */
    method CreateJob(cfg: Config, user: UserId, device: DeviceId, priority: int, fileOk: bool, id: JobId, now: int)
      returns (r: Result<JobId, CreateError>)
      requires id !in jobs
      modifies this
      ensures var refusal := Refusal(cfg, old(jobs), user, device, fileOk, now);
              if refusal.Some? then r == Err(refusal.value) && jobs == old(jobs)
              else r == Ok(id) && jobs == old(jobs)[id := NewJob(user, device, priority, now)]
    {
      if device !in cfg.devices { return Err(NoDevice); }
      if !cfg.devices[device] { return Err(DeviceDisabled); }
      if user !in cfg.users { return Err(NoUser); }
      var queuedRunning := |Pending(jobs, user)|;
      var u := cfg.users[user];
      var maxJobs := u.maxQueuedJobs;
      if u.tierJobs.Some? && u.tierJobs.value != 0 && u.tierJobs.value > maxJobs {
        maxJobs := u.tierJobs.value;
      }
      if queuedRunning >= maxJobs { return Err(QuotaReached); }
      if cfg.maxJobsPerHour > 0 && |CreatedSince(jobs, user, now - HOUR)| >= cfg.maxJobsPerHour {
        return Err(RateLimited);
      }
      if !fileOk { return Err(BadFile); }
      jobs := jobs[id := NewJob(user, device, priority, now)];
      r := Ok(id);
    }

    /** The first half of cancel_job: read the row and decide. */
    method DecideCancel(j: JobId, user: UserId, isAdmin: bool) returns (r: CancelReply)
      ensures r == CancelDecision(jobs, j, user, isAdmin)
    {
      if j !in jobs { return NotFound; }
      var job := jobs[j];
      if job.user != user && !isAdmin { return NotAuthorized; }
      if Finished(job.status) { return AlreadyFinished; }
      if job.cancelRequested { return AlreadyRequested; }
      if job.status == Queued { return JobCanceled; }
      if job.status == Running && isAdmin { return WillStop; }
      r := CannotCancel;
    }

    /** The second half: the changed columns are written to the row as it is by then. */
    method CommitCancel(j: JobId, r: CancelReply)
      requires j in jobs
      modifies this
      ensures jobs == if Intended(r).Some? then Commit(old(jobs), j, Intended(r).value) else old(jobs)
    {
      if r == JobCanceled {
        jobs := jobs[j := jobs[j].(cancelRequested := true, status := Canceled)];
      } else if r == WillStop {
        jobs := jobs[j := jobs[j].(cancelRequested := true)];
      }
    }

    /** cancel_job with nothing in between. */
    method Cancel(j: JobId, user: UserId, isAdmin: bool) returns (r: CancelReply)
      modifies this
      ensures r == CancelDecision(old(jobs), j, user, isAdmin)
      ensures jobs == if r == JobCanceled
                      then old(jobs)[j := old(jobs)[j].(cancelRequested := true, status := Canceled)]
                      else if r == WillStop then old(jobs)[j := old(jobs)[j].(cancelRequested := true)]
                      else old(jobs)
      ensures j in jobs ==> !Orphaned(jobs[j]) || Orphaned(old(jobs)[j])
    {
      r := DecideCancel(j, user, isAdmin);
      if j in jobs {
        CommitCancel(j, r);
      }
    }

    /** The orphan sweep of the worker loop: queued jobs of the device that are flagged become canceled, one commit
        each. */
    method SweepOrphans(device: DeviceId)
      modifies this
      ensures jobs.Keys == old(jobs).Keys
      ensures forall j | j in jobs ::
                jobs[j] == if OrphanOf(old(jobs)[j], device) then old(jobs)[j].(status := Canceled) else old(jobs)[j]
    {
      var orphaned := set j | j in jobs && OrphanOf(jobs[j], device);
      while orphaned != {}
        invariant jobs.Keys == old(jobs).Keys && orphaned <= jobs.Keys
        invariant forall j | j in orphaned :: jobs[j] == old(jobs)[j] && OrphanOf(jobs[j], device)
        invariant forall j | j in jobs && j !in orphaned ::
                    jobs[j] == if OrphanOf(old(jobs)[j], device) then old(jobs)[j].(status := Canceled)
                               else old(jobs)[j]
        decreases orphaned
      {
        var j :| j in orphaned;
        jobs := SetStatus(jobs, j, Canceled);
        orphaned := orphaned - {j};
      }
    }
  }

  predicate OrphanOf(job: Job, device: DeviceId) {
    job.device == device && Orphaned(job)
  }
}
