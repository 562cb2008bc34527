/** Short runs in which a lapsed lease, or a cancellation that commits late, has its effect. */
module JobWitnesses {
  import opened Common
  import opened JobTable
  import opened JobRuns
  import opened JobOwnership

  const ONE_PORT := Config(map[0 := true], map[0 := Port(0, true, true, 1)], map[0 := User(1, None)], 0)

  const QUEUED: Table := map[7 := NewJob(0, 0, 0, 1)]

  function Claimed(worker: WorkerId, at: int): Table {
    map[7 := NewJob(0, 0, 0, 1).(status := Running, claim := Some(Claim(0, worker, at, at + LEASE_SECONDS)))]
  }

  predicate HasStatus(w: World, j: JobId, s: Status) {
    j in w.jobs && w.jobs[j].status == s
  }

  const CREATE := Create(0, 0, 0, true, 7)
  const CREATED := World(1, QUEUED, map[], map[])

  lemma Created()
    ensures Run(ONE_PORT, Initial(1), [CREATE]) == CREATED
  {
    assert Pending(map[], 0) == {};
    RunSnoc(ONE_PORT, Initial(1), [], CREATE);
    assert [] + [CREATE] == [CREATE];
  }

  lemma ClaimQueued(w: World, worker: WorkerId)
    requires w.jobs == QUEUED && worker !in w.busy
    ensures Step(ONE_PORT, w, ClaimNext(worker, 0, 0, 7))
         == w.(jobs := Claimed(worker, w.clock), busy := w.busy[worker := Task(7, w.clock + LEASE_SECONDS)])
  {
    assert RunningOn(QUEUED, 0) == {} && IsNext(QUEUED, 0, 7);
  }

  lemma RecoverRequeues(w: World)
    requires w.clock == 302 && w.jobs == Claimed(1, 1)
    ensures Step(ONE_PORT, w, RecoverStale(0)) == w.(jobs := QUEUED)
  {
    RecoverTouchesOnly(w.jobs, 0, 302);
    assert StaleFlagged(w.jobs, 0, 302) == {} && 7 in Stale(w.jobs, 0, 302);
  }

  lemma Then(es: seq<Event>, e: Event, w: World, w': World)
    requires Run(ONE_PORT, Initial(1), es) == w && Step(ONE_PORT, w, e) == w'
    ensures Run(ONE_PORT, Initial(1), es + [e]) == w'
  {
    RunSnoc(ONE_PORT, Initial(1), es, e);
  }

  const HELD := CREATED.(jobs := Claimed(1, 1), busy := map[1 := Task(7, 301)])
  const SHARED := CREATED.(clock := 302, jobs := Claimed(2, 302), busy := map[1 := Task(7, 301), 2 := Task(7, 602)])

  lemma SecondClaim()
    ensures Run(ONE_PORT, Initial(1),
                [CREATE, ClaimNext(1, 0, 0, 7), Tick(301), RecoverStale(0), ClaimNext(2, 0, 0, 7)])
         == SHARED
  {
    Created();
    ClaimQueued(CREATED, 1);
    RecoverRequeues(HELD.(clock := 302));
    ClaimQueued(HELD.(clock := 302, jobs := QUEUED), 2);
    var es := [CREATE];
    Then(es, ClaimNext(1, 0, 0, 7), CREATED, HELD);
    Then(es + [ClaimNext(1, 0, 0, 7)], Tick(301), HELD, HELD.(clock := 302));
    Then(es + [ClaimNext(1, 0, 0, 7)] + [Tick(301)], RecoverStale(0), HELD.(clock := 302),
         HELD.(clock := 302, jobs := QUEUED));
    Then(es + [ClaimNext(1, 0, 0, 7)] + [Tick(301)] + [RecoverStale(0)], ClaimNext(2, 0, 0, 7),
         HELD.(clock := 302, jobs := QUEUED), SHARED);
    assert es + [ClaimNext(1, 0, 0, 7)] + [Tick(301)] + [RecoverStale(0)] + [ClaimNext(2, 0, 0, 7)]
        == [CREATE, ClaimNext(1, 0, 0, 7), Tick(301), RecoverStale(0), ClaimNext(2, 0, 0, 7)];
  }

  /** A worker outlives its lease, the job is requeued and claimed by a second worker: both now run it, and the slower
      outcome overwrites the faster one. */
  lemma LapsedLeaseSharesTheJob()
    ensures var w := Run(ONE_PORT, Initial(1),
                         [CREATE, ClaimNext(1, 0, 0, 7), Tick(301), RecoverStale(0), ClaimNext(2, 0, 0, 7)]);
            && 1 in w.busy && 2 in w.busy && w.busy[1].job == w.busy[2].job == 7
            && HasStatus(Step(ONE_PORT, w, Finish(2, Completed)), 7, Completed)
            && HasStatus(Step(ONE_PORT, Step(ONE_PORT, w, Finish(2, Completed)), Finish(1, Failed)), 7, Failed)
  {
    SecondClaim();
    var w := Step(ONE_PORT, SHARED, Finish(2, Completed));
    assert w.busy == map[1 := Task(7, 301)] && 7 in w.jobs;
  }

  const REQUEUED := HELD.(clock := 302, jobs := QUEUED, plans := map[0 := Plan(7, FlagRunning)])
  const ORPHANED := REQUEUED.(jobs := map[7 := QUEUED[7].(cancelRequested := true)], plans := map[])

  lemma LateFlag()
    ensures Run(ONE_PORT, Initial(1),
                [CREATE, ClaimNext(1, 0, 0, 7), CancelRead(0, 7, 9, true), Tick(301), RecoverStale(0)])
         == REQUEUED
    ensures Step(ONE_PORT, REQUEUED, CommitPlan(0)) == ORPHANED
  {
    Created();
    ClaimQueued(CREATED, 1);
    var read := HELD.(plans := map[0 := Plan(7, FlagRunning)]);
    assert Step(ONE_PORT, HELD, CancelRead(0, 7, 9, true)) == read;
    RecoverRequeues(read.(clock := 302));
    var es := [CREATE];
    Then(es, ClaimNext(1, 0, 0, 7), CREATED, HELD);
    Then(es + [ClaimNext(1, 0, 0, 7)], CancelRead(0, 7, 9, true), HELD, read);
    Then(es + [ClaimNext(1, 0, 0, 7)] + [CancelRead(0, 7, 9, true)], Tick(301), read, read.(clock := 302));
    Then(es + [ClaimNext(1, 0, 0, 7)] + [CancelRead(0, 7, 9, true)] + [Tick(301)], RecoverStale(0), read.(clock := 302),
         REQUEUED);
    assert es + [ClaimNext(1, 0, 0, 7)] + [CancelRead(0, 7, 9, true)] + [Tick(301)] + [RecoverStale(0)]
        == [CREATE, ClaimNext(1, 0, 0, 7), CancelRead(0, 7, 9, true), Tick(301), RecoverStale(0)];
  }

  /** An administrator's cancellation reads the job as running; the lease lapses and the job is requeued; then the
      cancellation commits.  The job is queued and flagged until the sweep cancels it. */
  lemma LateCancellationOrphansTheJob()
    ensures var w := Step(ONE_PORT, Run(ONE_PORT, Initial(1), [CREATE, ClaimNext(1, 0, 0, 7), CancelRead(0, 7, 9, true),
                                                               Tick(301), RecoverStale(0)]), CommitPlan(0));
            && IsOrphan(w, 7)
            && HasStatus(Step(ONE_PORT, Step(ONE_PORT, w, SweepRead(0, 0, 7)), CommitPlan(0)), 7, Canceled)
  {
    LateFlag();
    assert IsOrphan(ORPHANED, 7);
  }

  const PLANNED := CREATED.(plans := map[0 := Plan(7, CancelQueued)])
  const CLAIMED := PLANNED.(jobs := Claimed(1, 1), busy := map[1 := Task(7, 301)])
  const CANCELED := CLAIMED.(jobs := map[7 := Claimed(1, 1)[7].(cancelRequested := true, status := Canceled)],
                             plans := map[])
  const OVERWRITTEN := CANCELED.(jobs := map[7 := CANCELED.jobs[7].(status := Completed)], busy := map[])

  /** A cancellation reads the job as queued and commits after a worker has claimed it: the user is told that the job is
      canceled, the worker reports it completed, and that is how it stays. */
  lemma LateCancellationIsOverwritten()
    ensures var w := Run(ONE_PORT, Initial(1), [CREATE, CancelRead(0, 7, 0, false), ClaimNext(1, 0, 0, 7),
                                                CommitPlan(0), Finish(1, Completed)]);
            && CancelDecision(CREATED.jobs, 7, 0, false) == JobCanceled
            && HasStatus(w, 7, Completed) && w.jobs[7].cancelRequested && w.busy == map[] && w.plans == map[]
  {
    Created();
    ClaimQueued(PLANNED, 1);
    var es := [CREATE];
    Then(es, CancelRead(0, 7, 0, false), CREATED, PLANNED);
    Then(es + [CancelRead(0, 7, 0, false)], ClaimNext(1, 0, 0, 7), PLANNED, CLAIMED);
    Then(es + [CancelRead(0, 7, 0, false)] + [ClaimNext(1, 0, 0, 7)], CommitPlan(0), CLAIMED, CANCELED);
    Then(es + [CancelRead(0, 7, 0, false)] + [ClaimNext(1, 0, 0, 7)] + [CommitPlan(0)], Finish(1, Completed), CANCELED,
         OVERWRITTEN);
    assert es + [CancelRead(0, 7, 0, false)] + [ClaimNext(1, 0, 0, 7)] + [CommitPlan(0)] + [Finish(1, Completed)]
        == [CREATE, CancelRead(0, 7, 0, false), ClaimNext(1, 0, 0, 7), CommitPlan(0), Finish(1, Completed)];
  }

  // -- Two workers on a port for one --------------------------------------------------------------------------------

  const TWO_JOBS := ONE_PORT.(users := map[0 := User(2, None)])

  const NEW := NewJob(0, 0, 0, 1)

  function Claim1(worker: WorkerId): Option<Claim> {
    Some(Claim(0, worker, 1, 301))
  }

  const W1 := World(1, map[7 := NEW], map[], map[])
  const W2 := World(1, map[7 := NEW, 8 := NEW], map[], map[])
  const W3 := W2.(plans := map[0 := Plan(7, CancelQueued)])
  const W4 := W3.(jobs := map[7 := NEW.(status := Running, claim := Claim1(1)), 8 := NEW],
                  busy := map[1 := Task(7, 301)])
  const W5 := W4.(jobs := map[7 := NEW.(status := Canceled, cancelRequested := true, claim := Claim1(1)), 8 := NEW],
                  plans := map[])
  const W6 := W5.(jobs := W5.jobs[8 := NEW.(status := Running, claim := Claim1(2))],
                  busy := map[1 := Task(7, 301), 2 := Task(8, 301)])

  lemma TwoCreated()
    ensures Step(TWO_JOBS, Initial(1), CREATE) == W1 && Step(TWO_JOBS, W1, Create(0, 0, 0, true, 8)) == W2
  {
    assert Pending(map[], 0) == {} && Pending(W1.jobs, 0) == {7};
  }

  lemma FirstClaimed()
    ensures Step(TWO_JOBS, W2, CancelRead(0, 7, 0, false)) == W3 && Step(TWO_JOBS, W3, ClaimNext(1, 0, 0, 7)) == W4
  {
    assert RunningOn(W3.jobs, 0) == {} && IsNext(W3.jobs, 0, 7);
  }

  lemma FirstCanceled()
    ensures Step(TWO_JOBS, W4, CommitPlan(0)) == W5
  {
  }

  lemma SecondClaimed()
    ensures Step(TWO_JOBS, W5, ClaimNext(2, 0, 0, 8)) == W6
  {
    assert RunningOn(W5.jobs, 0) == {} && IsNext(W5.jobs, 0, 8);
  }

  lemma ThenTwo(es: seq<Event>, a: Event, b: Event, w: World, w': World, w'': World)
    requires Run(TWO_JOBS, Initial(1), es) == w && Step(TWO_JOBS, w, a) == w' && Step(TWO_JOBS, w', b) == w''
    ensures Run(TWO_JOBS, Initial(1), es + [a] + [b]) == w''
  {
    RunSnoc(TWO_JOBS, Initial(1), es, a);
    RunSnoc(TWO_JOBS, Initial(1), es + [a], b);
  }

  lemma BothDrive()
    ensures DriversOf(W6, 0) == {1, 2} && OwnershipOk(W6) && Timely(W6)
  {
    assert Owns(W6, 1) && Owns(W6, 2);
  }

  /** At one instant, with no lease lapsed: a cancellation read the first job as queued, a worker claims it, the
      cancellation commits, and a second worker claims the next job.  Both drive the port that serves one job at a
      time. */
  lemma LateCancellationDoublesAPort()
    ensures var w := Run(TWO_JOBS, Initial(1), [CREATE, Create(0, 0, 0, true, 8), CancelRead(0, 7, 0, false),
                                                ClaimNext(1, 0, 0, 7), CommitPlan(0), ClaimNext(2, 0, 0, 8)]);
            && DriversOf(w, 0) == {1, 2} && TWO_JOBS.ports[0].maxConcurrent == 1
            && OwnershipOk(w) && Timely(w) && CapacityOk(TWO_JOBS, w)
  {
    TwoCreated();
    FirstClaimed();
    FirstCanceled();
    SecondClaimed();
    var es: seq<Event> := [];
    ThenTwo(es, CREATE, Create(0, 0, 0, true, 8), Initial(1), W1, W2);
    var es2 := es + [CREATE] + [Create(0, 0, 0, true, 8)];
    ThenTwo(es2, CancelRead(0, 7, 0, false), ClaimNext(1, 0, 0, 7), W2, W3, W4);
    var es4 := es2 + [CancelRead(0, 7, 0, false)] + [ClaimNext(1, 0, 0, 7)];
    ThenTwo(es4, CommitPlan(0), ClaimNext(2, 0, 0, 8), W4, W5, W6);
    var all := [CREATE, Create(0, 0, 0, true, 8), CancelRead(0, 7, 0, false), ClaimNext(1, 0, 0, 7), CommitPlan(0),
                ClaimNext(2, 0, 0, 8)];
    assert es4 + [CommitPlan(0)] + [ClaimNext(2, 0, 0, 8)] == all;
    LimitsHoldInEveryRun(TWO_JOBS, 1, all);
    BothDrive();
  }
}
