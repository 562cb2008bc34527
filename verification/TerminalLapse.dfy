/** The grace period outlasts the lease: a run in which two live bridges end up on one port. */
module TerminalLapse {
  import opened Common
  import opened Terminal
  import opened TerminalRuns
  import opened TerminalTheorems
  import opened TerminalPorts

  // -- How old a suspended bridge's lease can get -------------------------------------------------------------------

  /** No lease runs for longer than its term from now; a suspended bridge's, from the suspension. */
  ghost predicate LeasesAge(s: Server) {
    && (forall p | p in s.leases :: s.leases[p].expires <= s.clock + LEASE_SECONDS)
    && (forall id | id in s.suspended :: Ages(s, s.suspended[id]))
  }

  ghost predicate Ages(s: Server, b: Bridge) {
    b.suspendedAt.Some? && Holds(s, b) ==> s.leases[b.port].expires <= b.suspendedAt.value + LEASE_SECONDS
  }

  ghost predicate SameSuspension(b: Bridge, b': Bridge) {
    b'.session == b.session && b'.port == b.port && b'.suspendedAt == b.suspendedAt
  }

  /** No lease and no suspended bridge is new. */
  ghost predicate OnlyLoses(s: Server, s': Server) {
    && s'.clock == s.clock
    && (forall p | p in s'.leases :: p in s.leases && s'.leases[p] == s.leases[p])
    && (forall id | id in s'.suspended :: id in s.suspended && SameSuspension(s.suspended[id], s'.suspended[id]))
  }

  lemma OnlyLosesKeepsAge(s: Server, s': Server)
    requires LeasesAge(s) && OnlyLoses(s, s')
    ensures LeasesAge(s')
  {
    forall id | id in s'.suspended ensures Ages(s', s'.suspended[id]) {
      assert Ages(s, s.suspended[id]);
    }
  }

  lemma PlacedKeepsAge(r: Server, user: UserId, sid: Sid, device: DeviceId, ports: seq<Port>, opens: bool, i: nat)
    requires Consistent(r) && LeasesAge(r) && (i < |ports| ==> ports[i].id !in r.leases)
    ensures LeasesAge(Placed(r, user, sid, device, ports, opens, i))
  {
    FreshIsBridgeless(r, r.nextId + i);
    var r' := Placed(r, user, sid, device, ports, opens, i);
    forall id | id in r'.suspended ensures Ages(r', r'.suspended[id]) {
      assert Ages(r, r.suspended[id]) && r.suspended[id].session == id;
    }
  }

  lemma OpenNewKeepsAge(s: Server, user: UserId, sid: Sid, device: DeviceId, ports: seq<Port>, opens: bool)
    requires Consistent(s) && LeasesAge(s)
    ensures LeasesAge(OpenNew(s, user, sid, device, ports, opens).0)
  {
    var r := if ports == [] then s else RecoverLeases(s);
    RecoverKeeps(s);
    OnlyLosesKeepsAge(s, r);
    var i := PlaceCases(r, user, sid, device, ports, opens);
    PlacedKeepsAge(r, user, sid, device, ports, opens, i);
  }

  lemma ResumeKeepsAge(s: Server, sid: Sid, id: SessionId)
    requires LeasesAge(s)
    ensures LeasesAge(Resume(s, sid, id).0)
  {
    assert OnlyLoses(s, Resume(s, sid, id).0);
    OnlyLosesKeepsAge(s, Resume(s, sid, id).0);
  }

  lemma AdmitKeepsAge(s: Server, user: UserId, sid: Sid, device: DeviceId, ports: seq<Port>, limit: int, opens: bool)
    requires Consistent(s) && LeasesAge(s)
    ensures LeasesAge(Admit(s, user, sid, device, ports, limit, opens).0)
  {
    OpenNewKeepsAge(s, user, sid, device, ports, opens);
  }

  lemma ContinueKeepsAge(s: Server, user: UserId, sid: Sid, device: DeviceId, ports: seq<Port>, limit: int, opens: bool,
                         id: SessionId)
    requires Consistent(s) && LeasesAge(s) && sid !in s.active && id in s.sessions
    ensures LeasesAge(Continue(s, user, sid, device, ports, limit, opens, id).0)
  {
    ResumeKeeps(s, sid, id);
    ResumeKeepsAge(s, sid, id);
    AdmitKeepsAge(Resume(s, sid, id).0, user, sid, device, ports, limit, opens);
  }

  lemma RequestKeepsAge(s: Server, user: UserId, sid: Sid, device: DeviceId, ports: seq<Port>, limit: int, opens: bool)
    requires Consistent(s) && OneSessionEach(s) && LeasesAge(s)
    ensures LeasesAge(Request(s, user, sid, device, ports, limit, opens).0)
  {
    if sid !in s.active {
      if id :| id in SessionsOn(s, user, device) {
        RequestContinues(s, user, sid, device, ports, limit, opens, id);
        ContinueKeepsAge(s, user, sid, device, ports, limit, opens, id);
      } else {
        AdmitKeepsAge(s, user, sid, device, ports, limit, opens);
      }
    }
  }

  lemma HeartbeatKeepsAge(s: Server, sid: Sid)
    requires Consistent(s) && LeasesAge(s)
    ensures LeasesAge(HeartbeatFrom(s, sid))
  {
    var s' := HeartbeatFrom(s, sid);
    forall id | id in s'.suspended ensures Ages(s', s'.suspended[id]) {
      assert Ages(s, s.suspended[id]) && s.suspended[id].session == id;
    }
  }

  lemma TickKeepsAge(s: Server, seconds: nat)
    requires LeasesAge(s)
    ensures LeasesAge(s.(clock := s.clock + seconds))
  {
    var s' := s.(clock := s.clock + seconds);
    forall id | id in s'.suspended ensures Ages(s', s'.suspended[id]) {
      assert Ages(s, s.suspended[id]);
    }
  }

  lemma SuspendKeepsAge(s: Server, sid: Sid)
    requires LeasesAge(s)
    ensures LeasesAge(Suspend(s, sid))
  {
    var s' := Suspend(s, sid);
    forall id | id in s'.suspended ensures Ages(s', s'.suspended[id]) {
      assert id in s.suspended ==> Ages(s, s.suspended[id]);
    }
  }

  lemma OtherStepsOnlyLose(cfg: Config, s: Server, e: Event)
    requires !e.Tick? && !e.RequestSession? && !e.SocketDrops? && !e.Heartbeat?
    ensures OnlyLoses(s, Step(cfg, s, e))
  {
  }

  lemma StepKeepsAge(cfg: Config, s: Server, e: Event)
    requires Consistent(s) && OneSessionEach(s) && LeasesAge(s)
    ensures LeasesAge(Step(cfg, s, e))
  {
    match e
    case Tick(seconds) => TickKeepsAge(s, seconds);
    case RequestSession(user, sid, device, opens) =>
      if device in cfg.ports && user in cfg.limits {
        RequestKeepsAge(s, user, sid, device, cfg.ports[device], cfg.limits[user], opens);
      }
    case SocketDrops(sid) => SuspendKeepsAge(s, sid);
    case Heartbeat(sid) => HeartbeatKeepsAge(s, sid);
    case _ =>
      OtherStepsOnlyLose(cfg, s, e);
      OnlyLosesKeepsAge(s, Step(cfg, s, e));
  }

  /** In every run, nothing renews the lease of a suspended bridge: if its session still holds it at all, it expires at
      most one lease term after the suspension.  So a bridge suspended for longer, as the grace period allows, is one
      that the next request for the port takes no notice of. */
  lemma {:induction false} SuspendedLeaseIsNeverRenewed(cfg: Config, clock: int, es: seq<Event>, id: SessionId)
    ensures var s := Run(cfg, Initial(clock), es);
            && LeasesAge(s)
            && (id in s.suspended ==>
                  && s.suspended[id].suspendedAt.Some?
                  && (s.clock > s.suspended[id].suspendedAt.value + LEASE_SECONDS
                      ==> !Holds(RecoverLeases(s), s.suspended[id])))
  {
    if es != [] {
      var front := es[..|es| - 1];
      SuspendedLeaseIsNeverRenewed(cfg, clock, front, id);
      ConsistentInEveryRun(cfg, clock, front);
      StepKeepsAge(cfg, Run(cfg, Initial(clock), front), es[|es| - 1]);
    }
    ConsistentInEveryRun(cfg, clock, es);
  }

  // -- A run --------------------------------------------------------------------------------------------------------

  const LINE := Port(7, 0, 0)
  const CFG := Config(map[1 := [LINE]], map[1 := 1, 2 := 1])

  const FIRST := Bridge(Some("a"), 0, 7, true, None, 1, 1, 3600, 300)
  const WAITING := FIRST.(sid := None, suspendedAt := Some(1))
  const SECOND := Bridge(Some("b"), 1, 7, true, None, 302, 302, 3600, 300)
  const ROW := Session(1, 1, 7, true, NotEnded)

  const CONNECTED := Server(1, map["a" := FIRST], map[], map[0 := ROW], map[7 := Lease(0, 301)], 1)
  const DROPPED := Server(1, map[], map[0 := WAITING], map[0 := ROW], map[7 := Lease(0, 301)], 1)
  const LATER := DROPPED.(clock := 302)
  const SHARED := Server(302, map["b" := SECOND], map[0 := WAITING],
                         map[0 := ROW, 1 := Session(2, 1, 7, true, NotEnded)], map[7 := Lease(1, 602)], 2)

  lemma FirstUserConnects()
    ensures Step(CFG, Initial(1), RequestSession(1, "a", 1, true)) == CONNECTED
  {
    var s := Initial(1);
    assert SessionsOn(s, 1, 1) == {} && ActiveSessions(s, 1) == {};
    assert RecoverLeases(s) == s;
    assert FirstFree(s.leases, [LINE]) == 0;
    assert Place(s, 1, "a", 1, [LINE], true).0 == CONNECTED;
  }

  lemma SecondUserConnects()
    ensures Step(CFG, LATER, RequestSession(2, "b", 1, true)) == SHARED
  {
    var s := LATER;
    assert SessionsOn(s, 2, 1) == {} && ActiveSessions(s, 2) == {};
    var r := s.(leases := map[]);
    assert RecoverLeases(s) == r by {
      assert 0 in s.suspended && s.suspended[0].session == 0 && s.suspended[0].running;
      assert ExpiredLeases(s) == {7};
      assert s.leases - {7} == map[];
    }
    assert FirstFree(r.leases, [LINE]) == 0;
    assert Place(r, 2, "b", 1, [LINE], true).0 == SHARED;
  }

  const LAPSE := [RequestSession(1, "a", 1, true), SocketDrops("a"), Tick(301), RequestSession(2, "b", 1, true)]

  lemma Then(es: seq<Event>, e: Event, s: Server, s': Server)
    requires Run(CFG, Initial(1), es) == s && Step(CFG, s, e) == s'
    ensures Run(CFG, Initial(1), es + [e]) == s'
  {
    RunSnoc(CFG, Initial(1), es, e);
  }

  lemma LapseRun()
    ensures Run(CFG, Initial(1), LAPSE) == SHARED
  {
    var es := LAPSE;
    FirstUserConnects();
    SecondUserConnects();
    Then([], es[0], Initial(1), CONNECTED);
    Then([] + [es[0]], es[1], CONNECTED, DROPPED);
    Then([] + [es[0]] + [es[1]], es[2], DROPPED, LATER);
    Then([] + [es[0]] + [es[1]] + [es[2]], es[3], LATER, SHARED);
    assert [] + [es[0]] + [es[1]] + [es[2]] + [es[3]] == es;
  }

  /** User 1's connection drops and is suspended; 301 seconds later, well within the grace period, user 2 asks for the
      same device and gets the same port.  Both bridges are live and either user may type. */
  lemma SuspendedBridgeLosesItsPort()
    ensures var es := [RequestSession(1, "a", 1, true), SocketDrops("a"), Tick(301), RequestSession(2, "b", 1, true)];
            var s := Run(CFG, Initial(1), es);
            && s == SHARED && "b" in s.active && 0 in s.suspended
            && s.active["b"].port == s.suspended[0].port && !GraceOver(s, s.suspended[0])
            && !NoSharedPort(s) && !Exclusive(s)
  {
    LapseRun();
    var s := SHARED;
    assert "b" in s.active && 0 in s.suspended && s.active["b"].port == s.suspended[0].port;
    assert !Holds(s, s.suspended[0]);
  }

  /** If the first line fails then, its session is stranded: active, with neither bridge nor lease. */
  lemma FailedLineStrandsItsSession()
    ensures Stranded(Run(CFG, Initial(1), LAPSE + [LineFails(0)]), 0)
  {
    LapseRun();
    RunSnoc(CFG, Initial(1), LAPSE, LineFails(0));
    assert SidsOf(SHARED, 0) == {};
    assert Step(CFG, SHARED, LineFails(0)) == SHARED.(suspended := map[]);
  }
}
