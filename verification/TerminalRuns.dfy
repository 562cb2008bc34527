/** Every run of the terminal server: what each operation keeps, and when two users could meet on one port. */
module TerminalRuns {
  import opened Terminal

  /** The interactive ports of each enabled device, and each user's session limit; fixed while the model runs. */
  datatype Config = Config(ports: map<DeviceId, seq<Port>>, limits: map<UserId, int>)

  datatype Event =
    | Tick(seconds: nat)
    | RequestSession(user: UserId, sid: Sid, device: DeviceId, opens: bool)
    | SocketDrops(sid: Sid)
    | ClientLeaves(sid: Sid)
    | Heartbeat(sid: Sid)
    | Activity(id: SessionId)
    | LineFails(id: SessionId)
    | CheckTimeout(sid: Sid)
    | CleanUp(id: SessionId)
    | AdminDisconnect(id: SessionId)
    | Restart

  ghost function Step(cfg: Config, s: Server, e: Event): Server {
    match e
    case Tick(seconds) => s.(clock := s.clock + seconds)
    case RequestSession(user, sid, device, opens) =>
      if device in cfg.ports && user in cfg.limits
      then Request(s, user, sid, device, cfg.ports[device], cfg.limits[user], opens).0 else s
    case SocketDrops(sid) => Suspend(s, sid)
    case ClientLeaves(sid) => Stop(s, sid, UserDisconnect)
    case Heartbeat(sid) => HeartbeatFrom(s, sid)
    case Activity(id) =>
      s.(active := map sid | sid in s.active ::
                     if s.active[sid].session == id then Touch(s, s.active[sid]) else s.active[sid],
         suspended := map k | k in s.suspended ::
                        if k == id then Touch(s, s.suspended[k]) else s.suspended[k])
    case LineFails(id) => DropBridge(s, id)
    case CheckTimeout(sid) =>
      if sid in s.active && Overdue(s, s.active[sid]).Some? then Stop(s, sid, Overdue(s, s.active[sid]).value) else s
    case CleanUp(id) => if id in s.suspended && GraceOver(s, s.suspended[id]) then DropExpired(s, id) else s
    case AdminDisconnect(id) => ForceDisconnect(s, id)
    case Restart => Restarted(s)
  }

  ghost function Run(cfg: Config, s: Server, es: seq<Event>): Server {
    if es == [] then s else Step(cfg, Run(cfg, s, es[..|es| - 1]), es[|es| - 1])
  }

  lemma RunSnoc(cfg: Config, s: Server, es: seq<Event>, e: Event)
    ensures Run(cfg, s, es + [e]) == Step(cfg, Run(cfg, s, es), e)
  {
    assert (es + [e])[..|es|] == es;
  }

  function Initial(clock: int): Server {
    Server(clock, map[], map[], map[], map[], 0)
  }

  // -- What each operation keeps ------------------------------------------------------------------------------------

  /** No live bridge serves the session. */
  ghost predicate Bridgeless(s: Server, id: SessionId) {
    id !in s.suspended && forall sid | sid in s.active :: s.active[sid].session != id
  }

  lemma DropsKeep(s: Server, sid: Sid, id: SessionId)
    requires Consistent(s)
    ensures Consistent(DropActive(s, sid)) && Consistent(DropSuspended(s, id))
    ensures Exclusive(s) ==> Exclusive(DropActive(s, sid)) && Exclusive(DropSuspended(s, id))
    ensures sid in s.active ==> Bridgeless(DropActive(s, sid), s.active[sid].session)
    ensures id in s.suspended ==> Bridgeless(DropSuspended(s, id), id)
  {
  }

  lemma DropBridgeKeeps(s: Server, id: SessionId)
    requires Consistent(s)
    ensures Consistent(DropBridge(s, id)) && Bridgeless(DropBridge(s, id), id)
    ensures Exclusive(s) ==> Exclusive(DropBridge(s, id))
  {
    if sid :| sid in s.active && s.active[sid].session == id {
      assert sid in SidsOf(s, id);
    } else {
      assert SidsOf(s, id) == {};
    }
  }

  /** Ending a session that has no bridge disturbs no bridge. */
  lemma EndSessionKeeps(s: Server, id: SessionId, reason: Reason)
    requires Consistent(s) && Bridgeless(s, id)
    ensures Consistent(EndSession(s, id, reason))
    ensures Exclusive(s) ==> Exclusive(EndSession(s, id, reason))
  {
  }

  lemma StopKeeps(s: Server, sid: Sid, reason: Reason)
    requires Consistent(s)
    ensures Consistent(Stop(s, sid, reason)) && (Exclusive(s) ==> Exclusive(Stop(s, sid, reason)))
  {
    DropsKeep(s, sid, 0);
    if sid in s.active {
      EndSessionKeeps(DropActive(s, sid), s.active[sid].session, reason);
    }
  }

  lemma DropExpiredKeeps(s: Server, id: SessionId)
    requires Consistent(s) && id in s.suspended
    ensures Consistent(DropExpired(s, id)) && (Exclusive(s) ==> Exclusive(DropExpired(s, id)))
  {
    DropsKeep(s, "", id);
    EndSessionKeeps(DropSuspended(s, id), id, UserDisconnect);
  }

  lemma SuspendKeeps(s: Server, sid: Sid)
    requires Consistent(s)
    ensures Consistent(Suspend(s, sid)) && (Exclusive(s) ==> Exclusive(Suspend(s, sid)))
  {
  }

  lemma ResumeKeeps(s: Server, sid: Sid, id: SessionId)
    requires Consistent(s) && sid !in s.active
    ensures Consistent(Resume(s, sid, id).0) && (Exclusive(s) ==> Exclusive(Resume(s, sid, id).0))
    ensures Resume(s, sid, id).1 <==> id in s.suspended && !GraceOver(s, s.suspended[id])
    ensures !Resume(s, sid, id).1 ==> Resume(s, sid, id).0.active == s.active
  {
    if id in s.suspended {
      if GraceOver(s, s.suspended[id]) {
        DropExpiredKeeps(s, id);
      }
    }
  }

  /** Recovering lapsed leases never ends a session this process still drives. */
  lemma RecoverKeeps(s: Server)
    requires Consistent(s)
    ensures Consistent(RecoverLeases(s))
    ensures RecoverLeases(s).active == s.active && RecoverLeases(s).suspended == s.suspended
    ensures forall p | p in RecoverLeases(s).leases :: s.clock <= RecoverLeases(s).leases[p].expires
  {
    var r := RecoverLeases(s);
    forall sid | sid in r.active ensures Backed(r, r.active[sid]) {
      assert Backed(s, s.active[sid]);
      assert HasLocalBridge(s, s.active[sid].session);
    }
    forall id | id in r.suspended ensures Backed(r, r.suspended[id]) {
      assert Backed(s, s.suspended[id]);
      assert HasLocalBridge(s, s.suspended[id].session);
    }
  }

  /** But it takes the lease away from a live bridge exactly when that lease has lapsed. */
  lemma RecoverKeepsExclusivityExactlyWhenTimely(s: Server)
    requires Consistent(s) && Exclusive(s)
    ensures Exclusive(RecoverLeases(s)) <==> Timely(s)
  {
    var r := RecoverLeases(s);
    forall sid | sid in s.active ensures Holds(r, r.active[sid]) <==> Current(s, s.active[sid]) {
      assert Holds(s, s.active[sid]);
    }
    forall id | id in s.suspended ensures Holds(r, r.suspended[id]) <==> Current(s, s.suspended[id]) {
      assert Holds(s, s.suspended[id]);
    }
  }

  lemma FreshIsBridgeless(s: Server, id: SessionId)
    requires Consistent(s) && id >= s.nextId
    ensures id !in s.sessions && Bridgeless(s, id)
  {
    assert forall sid | sid in s.active :: Backed(s, s.active[sid]);
    assert forall k | k in s.suspended :: Backed(s, s.suspended[k]);
  }

  /** A new session with its lease and its bridge. */
  function Opened(r: Server, user: UserId, sid: Sid, device: DeviceId, ports: seq<Port>, i: nat): Server
    requires i < |ports|
  {
    Started(Lend(r, user, device, ports, i), sid, r.nextId + i, ports[i])
  }

  lemma OpenedBridges(r: Server, user: UserId, sid: Sid, device: DeviceId, ports: seq<Port>, i: nat)
    requires BridgesOk(r) && OneBridgeEach(r) && Bridgeless(r, r.nextId + i) && i < |ports|
    ensures BridgesOk(Opened(r, user, sid, device, ports, i)) && OneBridgeEach(Opened(r, user, sid, device, ports, i))
  {
  }

  lemma OpenedRows(r: Server, user: UserId, sid: Sid, device: DeviceId, ports: seq<Port>, i: nat)
    requires AllBacked(r) && LeasesOk(r) && i < |ports|
    ensures AllBacked(Opened(r, user, sid, device, ports, i)) && LeasesOk(Opened(r, user, sid, device, ports, i))
  {
  }

  lemma OpenedLeases(r: Server, user: UserId, sid: Sid, device: DeviceId, ports: seq<Port>, i: nat)
    requires Exclusive(r) && i < |ports| && ports[i].id !in r.leases
    ensures Exclusive(Opened(r, user, sid, device, ports, i))
  {
  }

  lemma OpenedKeeps(r: Server, user: UserId, sid: Sid, device: DeviceId, ports: seq<Port>, i: nat)
    requires Consistent(r) && i < |ports| && ports[i].id !in r.leases
    ensures var r' := Opened(r, user, sid, device, ports, i);
            Consistent(r') && (Exclusive(r) ==> Exclusive(r'))
  {
    FreshIsBridgeless(r, r.nextId + i);
    OpenedBridges(r, user, sid, device, ports, i);
    OpenedRows(r, user, sid, device, ports, i);
    if Exclusive(r) { OpenedLeases(r, user, sid, device, ports, i); }
  }

  /** A line that does not open costs a row id and leaves an ended row; every lease is as before. */
  lemma NotOpenedSpendsOneRow(r: Server, user: UserId, device: DeviceId, ports: seq<Port>, i: nat)
    requires LeasesOk(r) && i < |ports| && ports[i].id !in r.leases
    ensures EndSession(Lend(r, user, device, ports, i), r.nextId + i, OpenError)
         == EndedRow(r, r.nextId + i, Session(user, device, ports[i].id, false, OpenError))
  {
    var id := r.nextId + i;
    var r' := EndSession(Lend(r, user, device, ports, i), id, OpenError);
    assert forall p | p in r.leases :: r.leases[p].session != id;
    assert r'.leases == r.leases;
  }

  function EndedRow(r: Server, id: SessionId, row: Session): Server {
    r.(sessions := r.sessions[id := row], nextId := id + 1)
  }

  lemma EndedRowKeeps(r: Server, id: SessionId, row: Session)
    requires Consistent(r) && id >= r.nextId && !row.active
    ensures Consistent(EndedRow(r, id, row)) && (Exclusive(r) ==> Exclusive(EndedRow(r, id, row)))
  {
    FreshIsBridgeless(r, id);
  }

  /** The three ways a placement can end. */
  function Placed(r: Server, user: UserId, sid: Sid, device: DeviceId, ports: seq<Port>, opens: bool, i: nat): Server {
    if i >= |ports| then r.(nextId := r.nextId + i)
    else if opens then Opened(r, user, sid, device, ports, i)
    else EndedRow(r, r.nextId + i, Session(user, device, ports[i].id, false, OpenError))
  }

  lemma PlaceCases(r: Server, user: UserId, sid: Sid, device: DeviceId, ports: seq<Port>, opens: bool) returns (i: nat)
    requires Consistent(r)
    ensures i == FirstFree(r.leases, ports) && i <= |ports| && (i < |ports| ==> ports[i].id !in r.leases)
    ensures Place(r, user, sid, device, ports, opens).0 == Placed(r, user, sid, device, ports, opens, i)
  {
    i := FirstFree(r.leases, ports);
    FirstFreeIsFree(r.leases, ports);
    if i < |ports| {
      NotOpenedSpendsOneRow(r, user, device, ports, i);
    }
  }

  lemma PlacedKeeps(r: Server, user: UserId, sid: Sid, device: DeviceId, ports: seq<Port>, opens: bool, i: nat)
    requires Consistent(r) && sid !in r.active && (i < |ports| ==> ports[i].id !in r.leases)
    ensures Consistent(Placed(r, user, sid, device, ports, opens, i))
    ensures Exclusive(r) ==> Exclusive(Placed(r, user, sid, device, ports, opens, i))
  {
    if i >= |ports| {
      SpendIdsKeeps(r, i);
    } else if opens {
      OpenedKeeps(r, user, sid, device, ports, i);
    } else {
      var row := Session(user, device, ports[i].id, false, OpenError);
      EndedRowKeeps(r, r.nextId + i, row);
      assert Placed(r, user, sid, device, ports, opens, i) == EndedRow(r, r.nextId + i, row);
    }
  }

  lemma SpendIdsKeeps(r: Server, n: nat)
    requires Consistent(r)
    ensures Consistent(r.(nextId := r.nextId + n)) && (Exclusive(r) ==> Exclusive(r.(nextId := r.nextId + n)))
  {
  }

  lemma OpenNewKeeps(s: Server, user: UserId, sid: Sid, device: DeviceId, ports: seq<Port>, opens: bool)
    requires Consistent(s) && sid !in s.active
    ensures Consistent(OpenNew(s, user, sid, device, ports, opens).0)
    ensures Exclusive(s) && Timely(s) ==> Exclusive(OpenNew(s, user, sid, device, ports, opens).0)
  {
    var r := if ports == [] then s else RecoverLeases(s);
    RecoverKeeps(s);
    if Exclusive(s) && Timely(s) { RecoverKeepsExclusivityExactlyWhenTimely(s); }
    var i := PlaceCases(r, user, sid, device, ports, opens);
    PlacedKeeps(r, user, sid, device, ports, opens, i);
  }

  lemma GraceOverKeepsTimely(s: Server, id: SessionId)
    requires Consistent(s) && Timely(s) && id in s.suspended
    ensures Timely(DropExpired(s, id))
  {
  }

  lemma ContinueKeeps(s: Server, user: UserId, sid: Sid, device: DeviceId, ports: seq<Port>, limit: int, opens: bool,
                      id: SessionId)
    requires Consistent(s) && sid !in s.active && id in SessionsOn(s, user, device)
    ensures var s' := Continue(s, user, sid, device, ports, limit, opens, id).0;
            Consistent(s') && (Exclusive(s) && Timely(s) ==> Exclusive(s'))
  {
    ResumeKeeps(s, sid, id);
    if id in s.suspended && GraceOver(s, s.suspended[id]) {
      if Timely(s) { GraceOverKeepsTimely(s, id); }
      OpenNewKeeps(DropExpired(s, id), user, sid, device, ports, opens);
    }
  }

  lemma RequestKeeps(s: Server, user: UserId, sid: Sid, device: DeviceId, ports: seq<Port>, limit: int, opens: bool)
    requires Consistent(s) && OneSessionEach(s)
    ensures var s' := Request(s, user, sid, device, ports, limit, opens).0;
            Consistent(s') && (Exclusive(s) && Timely(s) ==> Exclusive(s'))
  {
    if sid !in s.active {
      if id :| id in SessionsOn(s, user, device) {
        RequestContinues(s, user, sid, device, ports, limit, opens, id);
        ContinueKeeps(s, user, sid, device, ports, limit, opens, id);
      } else {
        OpenNewKeeps(s, user, sid, device, ports, opens);
      }
    }
  }
}
