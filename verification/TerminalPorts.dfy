/** Ports over whole runs: which requests break exclusivity or share a port, and what becomes of a session whose
    bridge is gone. */
module TerminalPorts {
  import opened Terminal
  import opened TerminalRuns
  import opened TerminalTheorems

  // -- Which requests search for a port -----------------------------------------------------------------------------

  ghost predicate PastGrace(s: Server, user: UserId, device: DeviceId, id: SessionId) {
    id in SessionsOn(s, user, device) && id in s.suspended && GraceOver(s, s.suspended[id])
  }

  /** The server once the user's session on the device is ended, if its grace period is over. */
  ghost function Cleared(s: Server, user: UserId, device: DeviceId): Server {
    if exists id :: PastGrace(s, user, device, id) then
      var id :| PastGrace(s, user, device, id);
      DropExpired(s, id)
    else s
  }

  /** The request is neither resumed nor refused beforehand, and there are ports to try: it recovers lapsed leases. */
  ghost predicate Searches(cfg: Config, s: Server, e: Event) {
    && e.RequestSession? && e.device in cfg.ports && e.user in cfg.limits && cfg.ports[e.device] != []
    && e.sid !in s.active
    && SessionsOn(Cleared(s, e.user, e.device), e.user, e.device) == {}
    && |ActiveSessions(Cleared(s, e.user, e.device), e.user)| < cfg.limits[e.user]
  }

  lemma ClearedIs(s: Server, user: UserId, device: DeviceId, id: SessionId)
    requires OneSessionEach(s) && id in SessionsOn(s, user, device)
    ensures PastGrace(s, user, device, id) ==> Cleared(s, user, device) == DropExpired(s, id)
    ensures PastGrace(s, user, device, id) ==> SessionsOn(DropExpired(s, id), user, device) == {}
    ensures !PastGrace(s, user, device, id) ==> Cleared(s, user, device) == s
  {
  }

  lemma ClearedKeeps(s: Server, user: UserId, device: DeviceId)
    requires Consistent(s)
    ensures var c := Cleared(s, user, device);
            Consistent(c) && c.active == s.active && (Exclusive(s) ==> Exclusive(c)) && (Timely(s) ==> Timely(c))
  {
    if exists id :: PastGrace(s, user, device, id) {
      var id :| PastGrace(s, user, device, id) && Cleared(s, user, device) == DropExpired(s, id);
      DropExpiredKeeps(s, id);
      if Timely(s) { GraceOverKeepsTimely(s, id); }
    }
  }

  lemma AdmitWhere(s: Server, user: UserId, sid: Sid, device: DeviceId, ports: seq<Port>, limit: int, opens: bool)
    ensures Admit(s, user, sid, device, ports, limit, opens).0
         == if ports != [] && |ActiveSessions(s, user)| < limit then OpenNew(s, user, sid, device, ports, opens).0
            else s
  {
  }

  lemma SearchOpens(cfg: Config, s: Server, e: Event)
    requires Consistent(s) && OneSessionEach(s) && Searches(cfg, s, e)
    ensures Step(cfg, s, e)
         == OpenNew(Cleared(s, e.user, e.device), e.user, e.sid, e.device, cfg.ports[e.device], e.opens).0
  {
    var c := Cleared(s, e.user, e.device);
    AdmitWhere(c, e.user, e.sid, e.device, cfg.ports[e.device], cfg.limits[e.user], e.opens);
    if id :| id in SessionsOn(s, e.user, e.device) {
      RequestContinues(s, e.user, e.sid, e.device, cfg.ports[e.device], cfg.limits[e.user], e.opens, id);
      ClearedIs(s, e.user, e.device, id);
      ResumeKeeps(s, e.sid, id);
    } else {
      assert SessionsOn(s, e.user, e.device) == {};
      assert c == s;
    }
  }

  /** Any other request resumes a bridge, ends one past its grace period, or changes nothing. */
  lemma OtherRequestsResume(cfg: Config, s: Server, e: Event) returns (id: SessionId)
    requires Consistent(s) && OneSessionEach(s) && e.RequestSession? && !Searches(cfg, s, e)
    ensures Step(cfg, s, e) == s || (e.sid !in s.active && Step(cfg, s, e) == Resume(s, e.sid, id).0)
  {
    id := 0;
    if e.device in cfg.ports && e.user in cfg.limits && e.sid !in s.active {
      var c := Cleared(s, e.user, e.device);
      AdmitWhere(c, e.user, e.sid, e.device, cfg.ports[e.device], cfg.limits[e.user], e.opens);
      if id' :| id' in SessionsOn(s, e.user, e.device) {
        id := id';
        RequestContinues(s, e.user, e.sid, e.device, cfg.ports[e.device], cfg.limits[e.user], e.opens, id);
        ClearedIs(s, e.user, e.device, id);
        ResumeKeeps(s, e.sid, id);
      } else {
        assert SessionsOn(s, e.user, e.device) == {};
        assert c == s;
      }
    }
  }

  // -- Exclusivity, exactly -----------------------------------------------------------------------------------------

  /** A live bridge without its lease does not get it back from somebody else's placement. */
  lemma PlacedReflectsExclusive(r: Server, user: UserId, sid: Sid, device: DeviceId, ports: seq<Port>, opens: bool,
                                i: nat)
    requires Consistent(r) && sid !in r.active && (i < |ports| ==> ports[i].id !in r.leases)
    requires Exclusive(Placed(r, user, sid, device, ports, opens, i))
    ensures Exclusive(r)
  {
    var r' := Placed(r, user, sid, device, ports, opens, i);
    forall k | k in r.active ensures Holds(r, r.active[k]) {
      assert r'.active[k] == r.active[k] && Holds(r', r'.active[k]) && Backed(r, r.active[k]);
    }
    forall k | k in r.suspended ensures Holds(r, r.suspended[k]) {
      assert r'.suspended[k] == r.suspended[k] && Holds(r', r'.suspended[k]) && Backed(r, r.suspended[k]);
    }
  }

  lemma OpenNewExclusiveExactlyWhenTimely(s: Server, user: UserId, sid: Sid, device: DeviceId, ports: seq<Port>,
                                          opens: bool)
    requires Consistent(s) && Exclusive(s) && sid !in s.active && ports != []
    ensures Exclusive(OpenNew(s, user, sid, device, ports, opens).0) <==> Timely(s)
  {
    var r := RecoverLeases(s);
    RecoverKeeps(s);
    RecoverKeepsExclusivityExactlyWhenTimely(s);
    var i := PlaceCases(r, user, sid, device, ports, opens);
    PlacedKeeps(r, user, sid, device, ports, opens, i);
    if Exclusive(Placed(r, user, sid, device, ports, opens, i)) {
      PlacedReflectsExclusive(r, user, sid, device, ports, opens, i);
    }
  }

  /** A request searches for a port while some live bridge's lease has lapsed. */
  ghost predicate TakesALine(cfg: Config, s: Server, e: Event) {
    Searches(cfg, s, e) && !Timely(Cleared(s, e.user, e.device))
  }

  /** Of all events, only such a request takes the lease of a live bridge away. */
  lemma ExclusiveIsLostExactlyWhenTaken(cfg: Config, s: Server, e: Event)
    requires Consistent(s) && OneSessionEach(s) && Exclusive(s)
    ensures Exclusive(Step(cfg, s, e)) <==> !TakesALine(cfg, s, e)
  {
    if Searches(cfg, s, e) {
      SearchOpens(cfg, s, e);
      ClearedKeeps(s, e.user, e.device);
      var c := Cleared(s, e.user, e.device);
      OpenNewExclusiveExactlyWhenTimely(c, e.user, e.sid, e.device, cfg.ports[e.device], e.opens);
    } else if e.RequestSession? {
      var id := OtherRequestsResume(cfg, s, e);
      if e.sid !in s.active { ResumeKeeps(s, e.sid, id); }
    } else {
      OtherEventsKeep(cfg, s, e);
    }
  }

  lemma PrefixStep(cfg: Config, s: Server, es: seq<Event>, k: nat)
    requires k < |es|
    ensures Run(cfg, s, es[..k + 1]) == Step(cfg, Run(cfg, s, es[..k]), es[k])
  {
    assert es[..k + 1] == es[..k] + [es[k]];
    RunSnoc(cfg, s, es[..k], es[k]);
  }

  lemma ExclusiveUntil(cfg: Config, clock: int, es: seq<Event>, k: nat)
    requires k <= |es|
    requires forall i | 0 <= i < k :: !TakesALine(cfg, Run(cfg, Initial(clock), es[..i]), es[i])
    ensures Exclusive(Run(cfg, Initial(clock), es[..k]))
  {
    if k > 0 {
      ExclusiveUntil(cfg, clock, es, k - 1);
      ConsistentInEveryRun(cfg, clock, es[..k - 1]);
      PrefixStep(cfg, Initial(clock), es, k - 1);
      ExclusiveIsLostExactlyWhenTaken(cfg, Run(cfg, Initial(clock), es[..k - 1]), es[k - 1]);
    }
  }

  /** Every live bridge holds the lease on its port throughout a run exactly when no request in it searches for a port
      while a live bridge's lease has lapsed. */
  lemma ExclusiveExactlyWhenNoLineIsTaken(cfg: Config, clock: int, es: seq<Event>)
    ensures (forall k | 0 <= k <= |es| :: Exclusive(Run(cfg, Initial(clock), es[..k])))
       <==> (forall k | 0 <= k < |es| :: !TakesALine(cfg, Run(cfg, Initial(clock), es[..k]), es[k]))
  {
    if forall k | 0 <= k < |es| :: !TakesALine(cfg, Run(cfg, Initial(clock), es[..k]), es[k]) {
      forall k | 0 <= k <= |es| ensures Exclusive(Run(cfg, Initial(clock), es[..k])) {
        ExclusiveUntil(cfg, clock, es, k);
      }
    } else {
      var k :| 0 <= k < |es| && TakesALine(cfg, Run(cfg, Initial(clock), es[..k]), es[k]);
      PrefixStep(cfg, Initial(clock), es, k);
      ConsistentInEveryRun(cfg, clock, es[..k]);
      if Exclusive(Run(cfg, Initial(clock), es[..k])) {
        ExclusiveIsLostExactlyWhenTaken(cfg, Run(cfg, Initial(clock), es[..k]), es[k]);
        assert !Exclusive(Run(cfg, Initial(clock), es[..k + 1]));
      }
    }
  }

  /** In such a run, in particular in one in which every live bridge's lease is renewed in time, no two live bridges
      ever share a port. */
  lemma NoTwoBridgesShareAPort(cfg: Config, clock: int, es: seq<Event>)
    requires TimelyRun(cfg, clock, es)
          || forall k | 0 <= k < |es| :: !TakesALine(cfg, Run(cfg, Initial(clock), es[..k]), es[k])
    ensures NoSharedPort(Run(cfg, Initial(clock), es))
  {
    if TimelyRun(cfg, clock, es) {
      ExclusiveInEveryTimelyRun(cfg, clock, es);
    } else {
      ExclusiveUntil(cfg, clock, es, |es|);
      assert es[..|es|] == es;
    }
    ConsistentInEveryRun(cfg, clock, es);
    ExclusiveMeansNoSharedPort(Run(cfg, Initial(clock), es));
  }

  // -- Shared ports, exactly ----------------------------------------------------------------------------------------

  /** The session has a live bridge on the port. */
  ghost predicate LiveOn(s: Server, id: SessionId, p: PortId) {
    || (exists sid :: sid in s.active && s.active[sid].session == id && s.active[sid].port == p)
    || (id in s.suspended && s.suspended[id].port == p)
  }

  ghost predicate Occupied(s: Server, p: PortId) {
    exists id :: LiveOn(s, id, p)
  }

  lemma SharedMeansTwoSessions(s: Server)
    requires Consistent(s)
    ensures NoSharedPort(s) <==> forall id, id', p | LiveOn(s, id, p) && LiveOn(s, id', p) :: id == id'
  {
    if forall id, id', p | LiveOn(s, id, p) && LiveOn(s, id', p) :: id == id' {
      assert forall sid | sid in s.active :: LiveOn(s, s.active[sid].session, s.active[sid].port);
      assert forall id | id in s.suspended :: LiveOn(s, id, s.suspended[id].port);
    }
  }

  ghost predicate OnlyDropsBridges(s: Server, s': Server) {
    forall id, p | LiveOn(s', id, p) :: LiveOn(s, id, p)
  }

  lemma DropsKeepPortsUnshared(s: Server, s': Server)
    requires Consistent(s) && Consistent(s') && NoSharedPort(s) && OnlyDropsBridges(s, s')
    ensures NoSharedPort(s')
  {
    SharedMeansTwoSessions(s);
    SharedMeansTwoSessions(s');
  }

  lemma ResumeOnlyDrops(s: Server, sid: Sid, id: SessionId)
    requires Consistent(s)
    ensures OnlyDropsBridges(s, Resume(s, sid, id).0)
  {
  }

  lemma OtherEventsOnlyDrop(cfg: Config, s: Server, e: Event)
    requires Consistent(s) && !e.RequestSession?
    ensures OnlyDropsBridges(s, Step(cfg, s, e))
  {
  }

  /** The request is granted a port on which another session has a live bridge. */
  ghost predicate GrantsOccupied(cfg: Config, s: Server, e: Event) {
    Searches(cfg, s, e) && e.opens
    && (var c, ports := Cleared(s, e.user, e.device), cfg.ports[e.device];
        var i := FirstFree(RecoverLeases(c).leases, ports);
        i < |ports| && Occupied(c, ports[i].id))
  }

  /** A new bridge comes to share its port exactly if the port was occupied. */
  lemma OpenedSharesExactlyWhenOccupied(r: Server, r': Server, sid: Sid, b: Bridge)
    requires BridgesOk(r) && NoSharedPort(r) && sid !in r.active
    requires r'.active == r.active[sid := b] && r'.suspended == r.suspended
    ensures NoSharedPort(r') <==> !Occupied(r, b.port)
  {
    assert r'.active[sid] == b;
    assert forall k | k in r.active ::
        k != sid && r'.active[k] == r.active[k] && LiveOn(r, r.active[k].session, r.active[k].port);
    assert forall k | k in r.suspended :: LiveOn(r, k, r.suspended[k].port);
  }

  lemma PlacedSharesExactlyWhenOccupied(r: Server, user: UserId, sid: Sid, device: DeviceId, ports: seq<Port>,
                                        opens: bool, i: nat)
    requires BridgesOk(r) && NoSharedPort(r) && sid !in r.active
    ensures NoSharedPort(Placed(r, user, sid, device, ports, opens, i))
       <==> !(opens && i < |ports| && Occupied(r, ports[i].id))
  {
    if opens && i < |ports| {
      var r' := Opened(r, user, sid, device, ports, i);
      OpenedSharesExactlyWhenOccupied(r, r', sid, r'.active[sid]);
    }
  }

  lemma SameBridgesSameOccupied(c: Server, r: Server)
    requires r.active == c.active && r.suspended == c.suspended
    ensures (NoSharedPort(c) ==> NoSharedPort(r)) && forall p :: Occupied(r, p) == Occupied(c, p)
  {
    assert forall id, p :: LiveOn(r, id, p) == LiveOn(c, id, p);
  }

  lemma SearchSharesExactlyWhenOccupied(c: Server, user: UserId, sid: Sid, device: DeviceId, ports: seq<Port>,
                                        opens: bool, i: nat)
    requires Consistent(c) && NoSharedPort(c) && sid !in c.active && ports != []
    requires i == FirstFree(RecoverLeases(c).leases, ports)
    ensures NoSharedPort(OpenNew(c, user, sid, device, ports, opens).0)
       <==> !(opens && i < |ports| && Occupied(c, ports[i].id))
  {
    var r := RecoverLeases(c);
    RecoverKeeps(c);
    SameBridgesSameOccupied(c, r);
    var j := PlaceCases(r, user, sid, device, ports, opens);
    PlacedSharesExactlyWhenOccupied(r, user, sid, device, ports, opens, i);
  }

  lemma ClearedOnlyDrops(s: Server, user: UserId, device: DeviceId)
    requires Consistent(s)
    ensures OnlyDropsBridges(s, Cleared(s, user, device))
  {
  }

  /** Of all events, only such a grant puts two live bridges on one port. */
  lemma PortIsSharedExactlyWhenGrantedOccupied(cfg: Config, s: Server, e: Event)
    requires Consistent(s) && OneSessionEach(s) && NoSharedPort(s)
    ensures NoSharedPort(Step(cfg, s, e)) <==> !GrantsOccupied(cfg, s, e)
  {
    StepKeepsConsistency(cfg, s, e);
    if Searches(cfg, s, e) {
      SearchOpens(cfg, s, e);
      var c := Cleared(s, e.user, e.device);
      ClearedKeeps(s, e.user, e.device);
      ClearedOnlyDrops(s, e.user, e.device);
      DropsKeepPortsUnshared(s, c);
      var ports := cfg.ports[e.device];
      var i := FirstFree(RecoverLeases(c).leases, ports);
      SearchSharesExactlyWhenOccupied(c, e.user, e.sid, e.device, ports, e.opens, i);
    } else {
      if e.RequestSession? {
        var id := OtherRequestsResume(cfg, s, e);
        ResumeOnlyDrops(s, e.sid, id);
      } else {
        OtherEventsOnlyDrop(cfg, s, e);
      }
      DropsKeepPortsUnshared(s, Step(cfg, s, e));
    }
  }

  lemma UnsharedUntil(cfg: Config, clock: int, es: seq<Event>, k: nat)
    requires k <= |es|
    requires forall i | 0 <= i < k :: !GrantsOccupied(cfg, Run(cfg, Initial(clock), es[..i]), es[i])
    ensures NoSharedPort(Run(cfg, Initial(clock), es[..k]))
  {
    if k > 0 {
      UnsharedUntil(cfg, clock, es, k - 1);
      ConsistentInEveryRun(cfg, clock, es[..k - 1]);
      PrefixStep(cfg, Initial(clock), es, k - 1);
      PortIsSharedExactlyWhenGrantedOccupied(cfg, Run(cfg, Initial(clock), es[..k - 1]), es[k - 1]);
    }
  }

  /** No two live bridges share a port throughout a run exactly when no request in it is granted an occupied port. */
  lemma PortsStayUnsharedExactlyWhenNoneGrantedOccupied(cfg: Config, clock: int, es: seq<Event>)
    ensures (forall k | 0 <= k <= |es| :: NoSharedPort(Run(cfg, Initial(clock), es[..k])))
       <==> (forall k | 0 <= k < |es| :: !GrantsOccupied(cfg, Run(cfg, Initial(clock), es[..k]), es[k]))
  {
    if forall k | 0 <= k < |es| :: !GrantsOccupied(cfg, Run(cfg, Initial(clock), es[..k]), es[k]) {
      forall k | 0 <= k <= |es| ensures NoSharedPort(Run(cfg, Initial(clock), es[..k])) {
        UnsharedUntil(cfg, clock, es, k);
      }
    } else {
      var k :| 0 <= k < |es| && GrantsOccupied(cfg, Run(cfg, Initial(clock), es[..k]), es[k]);
      PrefixStep(cfg, Initial(clock), es, k);
      ConsistentInEveryRun(cfg, clock, es[..k]);
      if NoSharedPort(Run(cfg, Initial(clock), es[..k])) {
        PortIsSharedExactlyWhenGrantedOccupied(cfg, Run(cfg, Initial(clock), es[..k]), es[k]);
        assert !NoSharedPort(Run(cfg, Initial(clock), es[..k + 1]));
      }
    }
  }

  // -- Sessions without a bridge ------------------------------------------------------------------------------------

  ghost predicate LeaseLapsed(s: Server, id: SessionId) {
    exists p :: p in s.leases && s.leases[p].session == id && s.leases[p].expires < s.clock
  }

  ghost predicate ActiveRow(s: Server, id: SessionId) {
    id in s.sessions && s.sessions[id].active
  }

  lemma RecoveryAndBridgeless(c: Server, id: SessionId)
    requires Consistent(c) && ActiveRow(c, id) && Bridgeless(c, id)
    ensures var r := RecoverLeases(c);
            && id in r.sessions && (r.sessions[id].active <==> !LeaseLapsed(c, id)) && Bridgeless(r, id)
            && forall p | p in r.leases :: p in c.leases && c.leases[p] == r.leases[p]
  {
    assert !HasLocalBridge(c, id);
    assert LosesLease(c, ExpiredLeases(c), id) <==> LeaseLapsed(c, id);
  }

  lemma PlacedAndBridgeless(r: Server, user: UserId, sid: Sid, device: DeviceId, ports: seq<Port>, opens: bool, i: nat,
                            id: SessionId)
    requires Consistent(r) && sid !in r.active && id in r.sessions && Bridgeless(r, id)
    ensures var r' := Placed(r, user, sid, device, ports, opens, i);
            && id in r'.sessions && r'.sessions[id] == r.sessions[id] && Bridgeless(r', id)
            && forall p | p in r'.leases && r'.leases[p].session == id :: p in r.leases && r.leases[p] == r'.leases[p]
  {
    FreshIsBridgeless(r, r.nextId + i);
  }

  /** What a port search does to the row and leases of a session without a bridge. */
  lemma SearchAndBridgeless(c: Server, user: UserId, sid: Sid, device: DeviceId, ports: seq<Port>, opens: bool,
                            id: SessionId)
    requires Consistent(c) && sid !in c.active && ports != [] && ActiveRow(c, id) && Bridgeless(c, id)
    ensures var s' := OpenNew(c, user, sid, device, ports, opens).0;
            && id in s'.sessions && (s'.sessions[id].active <==> !LeaseLapsed(c, id)) && Bridgeless(s', id)
            && forall p | p in s'.leases && s'.leases[p].session == id :: p in c.leases && c.leases[p] == s'.leases[p]
  {
    var r := RecoverLeases(c);
    RecoverKeeps(c);
    RecoveryAndBridgeless(c, id);
    var i := PlaceCases(r, user, sid, device, ports, opens);
    PlacedAndBridgeless(r, user, sid, device, ports, opens, i, id);
  }

  lemma ClearedSparesBridgeless(s: Server, user: UserId, device: DeviceId, id: SessionId)
    requires Consistent(s) && ActiveRow(s, id) && Bridgeless(s, id)
    ensures var c := Cleared(s, user, device);
            && ActiveRow(c, id) && Bridgeless(c, id) && (LeaseLapsed(c, id) <==> LeaseLapsed(s, id))
            && forall p | p in c.leases :: p in s.leases && c.leases[p] == s.leases[p]
  {
    if exists k :: PastGrace(s, user, device, k) {
      var k :| PastGrace(s, user, device, k) && Cleared(s, user, device) == DropExpired(s, k);
      var c := Cleared(s, user, device);
      assert k != id;
      assert forall p | p in s.leases && s.leases[p].session == id :: p in c.leases && c.leases[p] == s.leases[p];
    }
  }

  /** Only an administrator, a restart, or a request that searches for a port after its lease has lapsed, ends the
      session of a bridge that is gone. */
  lemma BridgelessSessionEndsExactlyBy(cfg: Config, s: Server, e: Event, id: SessionId)
    requires Consistent(s) && OneSessionEach(s) && ActiveRow(s, id) && Bridgeless(s, id)
    ensures !ActiveRow(Step(cfg, s, e), id)
       <==> e == AdminDisconnect(id) || e == Restart || (Searches(cfg, s, e) && LeaseLapsed(s, id))
  {
    if Searches(cfg, s, e) {
      SearchOpens(cfg, s, e);
      ClearedKeeps(s, e.user, e.device);
      ClearedSparesBridgeless(s, e.user, e.device, id);
      SearchAndBridgeless(Cleared(s, e.user, e.device), e.user, e.sid, e.device, cfg.ports[e.device], e.opens, id);
    } else if e.RequestSession? {
      var k := OtherRequestsResume(cfg, s, e);
    } else {
      OtherEventsSpareBridgeless(cfg, s, e, id);
    }
  }

  lemma OtherEventsSpareBridgeless(cfg: Config, s: Server, e: Event, id: SessionId)
    requires Consistent(s) && !e.RequestSession? && ActiveRow(s, id) && Bridgeless(s, id)
    ensures ActiveRow(Step(cfg, s, e), id) <==> e != AdminDisconnect(id) && e != Restart
  {
  }

  /** A session without a bridge never gets one again, and its row keeps its user and device. */
  lemma BridgelessStays(cfg: Config, s: Server, e: Event, id: SessionId)
    requires Consistent(s) && OneSessionEach(s) && id in s.sessions && Bridgeless(s, id)
    ensures var s' := Step(cfg, s, e);
            Bridgeless(s', id) && id in s'.sessions && SameOwner(s.sessions[id], s'.sessions[id])
  {
    if Searches(cfg, s, e) {
      SearchOpens(cfg, s, e);
      ClearedKeeps(s, e.user, e.device);
      ClearedKeepsBridgeless(s, e.user, e.device, id);
      SearchKeepsBridgeless(Cleared(s, e.user, e.device), e.user, e.sid, e.device, cfg.ports[e.device], e.opens, id);
    } else if e.RequestSession? {
      var k := OtherRequestsResume(cfg, s, e);
      ResumeKeepsBridgeless(s, e.sid, k, id);
    } else {
      OtherEventsKeepBridgeless(cfg, s, e, id);
    }
  }

  lemma ResumeKeepsBridgeless(s: Server, sid: Sid, k: SessionId, id: SessionId)
    requires BridgesOk(s) && id in s.sessions && Bridgeless(s, id)
    ensures var s' := Resume(s, sid, k).0;
            Bridgeless(s', id) && id in s'.sessions && SameOwner(s.sessions[id], s'.sessions[id])
  {
  }

  lemma ClearedKeepsBridgeless(s: Server, user: UserId, device: DeviceId, id: SessionId)
    requires id in s.sessions && Bridgeless(s, id)
    ensures var c := Cleared(s, user, device);
            Bridgeless(c, id) && id in c.sessions && SameOwner(s.sessions[id], c.sessions[id])
  {
  }

  predicate SameOwner(row: Session, row': Session) {
    row'.user == row.user && row'.device == row.device
  }

  lemma SearchKeepsBridgeless(c: Server, user: UserId, sid: Sid, device: DeviceId, ports: seq<Port>, opens: bool,
                              id: SessionId)
    requires Consistent(c) && sid !in c.active && ports != [] && id in c.sessions && Bridgeless(c, id)
    ensures var s' := OpenNew(c, user, sid, device, ports, opens).0;
            Bridgeless(s', id) && id in s'.sessions && SameOwner(c.sessions[id], s'.sessions[id])
  {
    var r := RecoverLeases(c);
    RecoverKeeps(c);
    var i := PlaceCases(r, user, sid, device, ports, opens);
    PlacedAndBridgeless(r, user, sid, device, ports, opens, i, id);
  }

  lemma OtherEventsKeepBridgeless(cfg: Config, s: Server, e: Event, id: SessionId)
    requires !e.RequestSession? && id in s.sessions && Bridgeless(s, id)
    ensures var s' := Step(cfg, s, e);
            Bridgeless(s', id) && id in s'.sessions && SameOwner(s.sessions[id], s'.sessions[id])
  {
  }

  lemma {:induction false} BridgelessForGood(cfg: Config, clock: int, es: seq<Event>, more: seq<Event>, id: SessionId)
    requires var s := Run(cfg, Initial(clock), es); id in s.sessions && Bridgeless(s, id)
    ensures var s, t := Run(cfg, Initial(clock), es), Run(cfg, Initial(clock), es + more);
            Bridgeless(t, id) && id in t.sessions && SameOwner(s.sessions[id], t.sessions[id])
  {
    if more == [] {
      assert es + more == es;
    } else {
      var front, e := more[..|more| - 1], more[|more| - 1];
      BridgelessForGood(cfg, clock, es, front, id);
      assert es + more == (es + front) + [e];
      RunSnoc(cfg, Initial(clock), es + front, e);
      ConsistentInEveryRun(cfg, clock, es + front);
      BridgelessStays(cfg, Run(cfg, Initial(clock), es + front), e, id);
    }
  }

  /** An active row with neither a bridge nor a lease. */
  ghost predicate Stranded(s: Server, id: SessionId) {
    ActiveRow(s, id) && Bridgeless(s, id) && forall p | p in s.leases :: s.leases[p].session != id
  }

  lemma StrandedStays(cfg: Config, s: Server, e: Event, id: SessionId)
    requires Consistent(s) && OneSessionEach(s) && Stranded(s, id)
    requires e != AdminDisconnect(id) && e != Restart
    ensures Stranded(Step(cfg, s, e), id)
  {
    BridgelessSessionEndsExactlyBy(cfg, s, e, id);
    if Searches(cfg, s, e) {
      SearchOpens(cfg, s, e);
      ClearedKeeps(s, e.user, e.device);
      ClearedSparesBridgeless(s, e.user, e.device, id);
      SearchAndBridgeless(Cleared(s, e.user, e.device), e.user, e.sid, e.device, cfg.ports[e.device], e.opens, id);
    } else if e.RequestSession? {
      var k := OtherRequestsResume(cfg, s, e);
    } else {
      OtherEventsStrand(cfg, s, e, id);
    }
  }

  lemma OtherEventsStrand(cfg: Config, s: Server, e: Event, id: SessionId)
    requires Stranded(s, id) && !e.RequestSession?
    ensures var s' := Step(cfg, s, e);
            Bridgeless(s', id) && forall p | p in s'.leases :: s'.leases[p].session != id
  {
  }

  /** Nothing but an administrator or a restart ever ends such a session, in any continuation of any run; until then it
      counts against its user's limit. */
  lemma {:induction false} StrandedUntilForced(cfg: Config, clock: int, es: seq<Event>, more: seq<Event>, id: SessionId)
    requires Stranded(Run(cfg, Initial(clock), es), id) && AdminDisconnect(id) !in more && Restart !in more
    ensures Stranded(Run(cfg, Initial(clock), es + more), id)
  {
    if more == [] {
      assert es + more == es;
    } else {
      var front, e := more[..|more| - 1], more[|more| - 1];
      StrandedUntilForced(cfg, clock, es, front, id);
      assert es + more == (es + front) + [e];
      RunSnoc(cfg, Initial(clock), es + front, e);
      ConsistentInEveryRun(cfg, clock, es + front);
      StrandedStays(cfg, Run(cfg, Initial(clock), es + front), e, id);
    }
  }
}
