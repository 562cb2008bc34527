/** What holds in every run of the terminal server. */
module TerminalTheorems {
  import opened Common
  import opened Terminal
  import opened TerminalRuns

  // -- Session rows -------------------------------------------------------------------------------------------------

  /** Rows may end or appear ended; every row active afterwards was active before and is unchanged. */
  ghost predicate OnlyEnds(s: Server, s': Server) {
    forall id | id in s'.sessions && s'.sessions[id].active :: id in s.sessions && s'.sessions[id] == s.sessions[id]
  }

  lemma OnlyEndsKeeps(s: Server, s': Server, limits: map<UserId, int>)
    requires OnlyEnds(s, s')
    ensures OneSessionEach(s) ==> OneSessionEach(s')
    ensures WithinQuota(s, limits) ==> WithinQuota(s', limits)
  {
    forall u ensures ActiveSessions(s', u) <= ActiveSessions(s, u) {
    }
    if WithinQuota(s, limits) {
      forall u | ActiveSessions(s', u) != {} ensures u in limits && |ActiveSessions(s', u)| <= limits[u] {
        SubsetCard(ActiveSessions(s', u), ActiveSessions(s, u));
      }
    }
  }

  lemma AdmitRows(s: Server, user: UserId, sid: Sid, device: DeviceId, ports: seq<Port>, limits: map<UserId, int>,
                  opens: bool)
    requires Consistent(s) && OneSessionEach(s) && WithinQuota(s, limits) && user in limits
    requires SessionsOn(s, user, device) == {}
    ensures var s' := Admit(s, user, sid, device, ports, limits[user], opens).0;
            OneSessionEach(s') && WithinQuota(s', limits)
  {
    if |ActiveSessions(s, user)| < limits[user] {
      var r := if ports == [] then s else RecoverLeases(s);
      RecoverKeeps(s);
      assert OnlyEnds(s, r);
      OnlyEndsKeeps(s, r, limits);
      assert ActiveSessions(r, user) <= ActiveSessions(s, user);
      assert SessionsOn(r, user, device) <= SessionsOn(s, user, device);
      SubsetCard(ActiveSessions(r, user), ActiveSessions(s, user));
      var i := PlaceCases(r, user, sid, device, ports, opens);
      PlacedRows(r, user, sid, device, ports, limits, opens, i);
    }
  }

  lemma AddedRowIsTheOnlyOne(r: Server, r': Server, id: SessionId, row: Session)
    requires OneSessionEach(r) && id !in r.sessions && r'.sessions == r.sessions[id := row]
    requires SessionsOn(r, row.user, row.device) == {}
    ensures OneSessionEach(r')
  {
    assert forall a | a in r.sessions && r.sessions[a].active && r.sessions[a].user == row.user
                      && r.sessions[a].device == row.device :: a in SessionsOn(r, row.user, row.device);
  }

  lemma AddedRowCounts(r: Server, r': Server, id: SessionId, row: Session, u: UserId)
    requires id !in r.sessions && r'.sessions == r.sessions[id := row] && row.active
    ensures u == row.user ==> ActiveSessions(r', u) == ActiveSessions(r, u) + {id} && id !in ActiveSessions(r, u)
    ensures u != row.user ==> ActiveSessions(r', u) == ActiveSessions(r, u)
  {
  }

  lemma AddedRowFitsQuota(r: Server, r': Server, id: SessionId, row: Session, limits: map<UserId, int>)
    requires WithinQuota(r, limits) && id !in r.sessions && r'.sessions == r.sessions[id := row] && row.active
    requires row.user in limits && |ActiveSessions(r, row.user)| < limits[row.user]
    ensures WithinQuota(r', limits)
  {
    forall u | ActiveSessions(r', u) != {} ensures u in limits && |ActiveSessions(r', u)| <= limits[u] {
      AddedRowCounts(r, r', id, row, u);
    }
  }

  lemma PlacedRows(r: Server, user: UserId, sid: Sid, device: DeviceId, ports: seq<Port>, limits: map<UserId, int>,
                   opens: bool, i: nat)
    requires LeasesOk(r) && OneSessionEach(r) && WithinQuota(r, limits) && user in limits
    requires SessionsOn(r, user, device) == {} && |ActiveSessions(r, user)| < limits[user]
    ensures var r' := Placed(r, user, sid, device, ports, opens, i);
            OneSessionEach(r') && WithinQuota(r', limits)
  {
    var r' := Placed(r, user, sid, device, ports, opens, i);
    var id := r.nextId + i;
    assert id !in r.sessions;
    if i < |ports| && opens {
      var row := Session(user, device, ports[i].id, true, NotEnded);
      AddedRowIsTheOnlyOne(r, r', id, row);
      AddedRowFitsQuota(r, r', id, row, limits);
    } else {
      assert OnlyEnds(r, r');
      OnlyEndsKeeps(r, r', limits);
    }
  }

  lemma ContinueRows(s: Server, user: UserId, sid: Sid, device: DeviceId, ports: seq<Port>, limits: map<UserId, int>,
                     opens: bool, id: SessionId)
    requires Consistent(s) && OneSessionEach(s) && WithinQuota(s, limits) && user in limits
    requires sid !in s.active && id in SessionsOn(s, user, device)
    ensures var s' := Continue(s, user, sid, device, ports, limits[user], opens, id).0;
            OneSessionEach(s') && WithinQuota(s', limits)
  {
    ResumeKeeps(s, sid, id);
    if id in s.suspended && GraceOver(s, s.suspended[id]) {
      var s1 := DropExpired(s, id);
      assert OnlyEnds(s, s1);
      OnlyEndsKeeps(s, s1, limits);
      assert SessionsOn(s1, user, device) == {};
      AdmitRows(s1, user, sid, device, ports, limits, opens);
    }
  }

  lemma RequestRows(s: Server, user: UserId, sid: Sid, device: DeviceId, ports: seq<Port>, limits: map<UserId, int>,
                    opens: bool)
    requires Consistent(s) && OneSessionEach(s) && WithinQuota(s, limits) && user in limits
    ensures var s' := Request(s, user, sid, device, ports, limits[user], opens).0;
            OneSessionEach(s') && WithinQuota(s', limits)
  {
    if sid !in s.active {
      if id :| id in SessionsOn(s, user, device) {
        RequestContinues(s, user, sid, device, ports, limits[user], opens, id);
        ContinueRows(s, user, sid, device, ports, limits, opens, id);
      } else {
        AdmitRows(s, user, sid, device, ports, limits, opens);
      }
    }
  }

  // -- One step and whole runs --------------------------------------------------------------------------------------

  lemma StepKeepsConsistency(cfg: Config, s: Server, e: Event)
    requires Consistent(s) && OneSessionEach(s)
    ensures Consistent(Step(cfg, s, e))
    ensures Exclusive(s) && Timely(s) ==> Exclusive(Step(cfg, s, e))
  {
    if e.RequestSession? {
      if e.device in cfg.ports && e.user in cfg.limits {
        RequestKeeps(s, e.user, e.sid, e.device, cfg.ports[e.device], cfg.limits[e.user], e.opens);
      }
    } else {
      OtherEventsKeep(cfg, s, e);
    }
  }

  /** Only requests depend on timely leases. */
  lemma OtherEventsKeep(cfg: Config, s: Server, e: Event)
    requires Consistent(s) && !e.RequestSession?
    ensures Consistent(Step(cfg, s, e)) && (Exclusive(s) ==> Exclusive(Step(cfg, s, e)))
  {
    match e
    case Tick(seconds) => TickKeeps(s, seconds);
    case SocketDrops(sid) => SuspendKeeps(s, sid);
    case Heartbeat(sid) => HeartbeatKeeps(cfg, s, sid);
    case Activity(id) => ActivityKeeps(cfg, s, id);
    case LineFails(id) => DropBridgeKeeps(s, id);
    case ClientLeaves(sid) => StopKeeps(s, sid, UserDisconnect);
    case CheckTimeout(sid) => TimeoutKeeps(cfg, s, sid);
    case CleanUp(id) => CleanUpKeeps(cfg, s, id);
    case AdminDisconnect(id) => ForceDisconnectKeeps(s, id);
    case Restart => RestartKeeps(s);
  }

  lemma RestartKeeps(s: Server)
    requires Consistent(s)
    ensures Consistent(Restarted(s)) && Exclusive(Restarted(s))
  {
  }

  lemma TickKeeps(s: Server, seconds: nat)
    requires Consistent(s)
    ensures var s' := s.(clock := s.clock + seconds); Consistent(s') && (Exclusive(s) ==> Exclusive(s'))
  {
  }

  lemma TimeoutKeeps(cfg: Config, s: Server, sid: Sid)
    requires Consistent(s)
    ensures var s' := Step(cfg, s, CheckTimeout(sid)); Consistent(s') && (Exclusive(s) ==> Exclusive(s'))
  {
    if sid in s.active && Overdue(s, s.active[sid]).Some? {
      StopKeeps(s, sid, Overdue(s, s.active[sid]).value);
    }
  }

  lemma CleanUpKeeps(cfg: Config, s: Server, id: SessionId)
    requires Consistent(s)
    ensures var s' := Step(cfg, s, CleanUp(id)); Consistent(s') && (Exclusive(s) ==> Exclusive(s'))
  {
    if id in s.suspended {
      DropExpiredKeeps(s, id);
    }
  }

  lemma ForceDisconnectKeeps(s: Server, id: SessionId)
    requires Consistent(s)
    ensures Consistent(ForceDisconnect(s, id)) && (Exclusive(s) ==> Exclusive(ForceDisconnect(s, id)))
  {
    DropBridgeKeeps(s, id);
    EndSessionKeeps(DropBridge(s, id), id, AdminForce);
  }

  lemma RenewLeaseKeeps(s: Server, id: SessionId)
    requires Consistent(s)
    ensures Consistent(RenewLease(s, id)) && (Exclusive(s) ==> Exclusive(RenewLease(s, id)))
  {
  }

  lemma HeartbeatKeeps(cfg: Config, s: Server, sid: Sid)
    requires Consistent(s)
    ensures Consistent(Step(cfg, s, Heartbeat(sid)))
    ensures Exclusive(s) ==> Exclusive(Step(cfg, s, Heartbeat(sid)))
  {
    if sid in s.active {
      var touched := s.(active := s.active[sid := Touch(s, s.active[sid])]);
      TouchedKeeps(s, touched);
      RenewLeaseKeeps(touched, s.active[sid].session);
    }
  }

  lemma ActivityKeeps(cfg: Config, s: Server, id: SessionId)
    requires Consistent(s)
    ensures Consistent(Step(cfg, s, Activity(id)))
    ensures Exclusive(s) ==> Exclusive(Step(cfg, s, Activity(id)))
  {
    TouchedKeeps(s, Step(cfg, s, Activity(id)));
  }

  /** Bridges may differ in their last activity only. */
  ghost predicate Touched(s: Server, s': Server) {
    && s' == s.(active := s'.active, suspended := s'.suspended)
    && s'.active.Keys == s.active.Keys && s'.suspended.Keys == s.suspended.Keys
    && (forall sid | sid in s.active :: s'.active[sid] == s.active[sid].(lastActivity := s'.active[sid].lastActivity))
    && (forall id | id in s.suspended ::
          s'.suspended[id] == s.suspended[id].(lastActivity := s'.suspended[id].lastActivity))
  }

  lemma TouchedKeeps(s: Server, s': Server)
    requires Consistent(s) && Touched(s, s')
    ensures Consistent(s') && (Exclusive(s) ==> Exclusive(s'))
  {
    assert forall sid | sid in s.active ::
        Backed(s', s'.active[sid]) && (Holds(s, s.active[sid]) ==> Holds(s', s'.active[sid]));
    assert forall id | id in s.suspended ::
        Backed(s', s'.suspended[id]) && (Holds(s, s.suspended[id]) ==> Holds(s', s'.suspended[id]));
  }

  /** Only a request can make a session active. */
  lemma OtherStepsOnlyEnd(cfg: Config, s: Server, e: Event)
    requires !e.RequestSession?
    ensures OnlyEnds(s, Step(cfg, s, e))
  {
  }

  lemma StepKeepsRows(cfg: Config, s: Server, e: Event)
    requires Consistent(s) && OneSessionEach(s) && WithinQuota(s, cfg.limits)
    ensures OneSessionEach(Step(cfg, s, e)) && WithinQuota(Step(cfg, s, e), cfg.limits)
  {
    if e.RequestSession? {
      if e.device in cfg.ports && e.user in cfg.limits {
        RequestRows(s, e.user, e.sid, e.device, cfg.ports[e.device], cfg.limits, e.opens);
      }
    } else {
      OtherStepsOnlyEnd(cfg, s, e);
      OnlyEndsKeeps(s, Step(cfg, s, e), cfg.limits);
    }
  }

  /** In every run: the two bridge maps agree with each other and with the rows; stored bridges are running and keyed by
      their own socket or session; leases belong to active rows; a user has at most one active session per device and
      never more than the limit. */
  lemma {:induction false} ConsistentInEveryRun(cfg: Config, clock: int, es: seq<Event>)
    ensures var s := Run(cfg, Initial(clock), es);
            Consistent(s) && OneSessionEach(s) && WithinQuota(s, cfg.limits)
  {
    if es == [] {
      assert forall u :: ActiveSessions(Initial(clock), u) == {};
    } else {
      var front, e := es[..|es| - 1], es[|es| - 1];
      ConsistentInEveryRun(cfg, clock, front);
      StepKeepsConsistency(cfg, Run(cfg, Initial(clock), front), e);
      StepKeepsRows(cfg, Run(cfg, Initial(clock), front), e);
    }
  }

  /** A run in which no live bridge's lease is ever past its expiry. */
  ghost predicate TimelyRun(cfg: Config, clock: int, es: seq<Event>) {
    forall k | 0 <= k < |es| :: Timely(Run(cfg, Initial(clock), es[..k]))
  }

  /** In every timely run each live bridge, active or suspended, holds the one lease on its port, so no two live bridges
      share a port. */
  lemma {:induction false} ExclusiveInEveryTimelyRun(cfg: Config, clock: int, es: seq<Event>)
    requires TimelyRun(cfg, clock, es)
    ensures Exclusive(Run(cfg, Initial(clock), es))
  {
    if es != [] {
      var front := es[..|es| - 1];
      forall k | 0 <= k < |front| ensures Timely(Run(cfg, Initial(clock), front[..k])) {
        assert front[..k] == es[..k];
      }
      ExclusiveInEveryTimelyRun(cfg, clock, front);
      ConsistentInEveryRun(cfg, clock, front);
      StepKeepsConsistency(cfg, Run(cfg, Initial(clock), front), es[|es| - 1]);
    }
  }
}
