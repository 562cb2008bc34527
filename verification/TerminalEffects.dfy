/** What each terminal operation leaves behind: every bridge, row and lease afterwards, in terms of those before. */
module TerminalEffects {
  import opened Common
  import opened Terminal
  import opened TerminalRuns
  import opened TerminalPorts

  ghost predicate SameDatabase(s: Server, s': Server) {
    s'.sessions == s.sessions && s'.leases == s.leases && s'.nextId == s.nextId && s'.clock == s.clock
  }

  /** The session's row ends for this reason and its lease goes; other rows and leases stay as they are. */
  ghost predicate EndsOnly(s: Server, s': Server, id: SessionId, reason: Reason) {
    && s'.clock == s.clock && s'.nextId == s.nextId
    && s'.sessions.Keys == s.sessions.Keys
    && (forall k | k in s.sessions && k != id :: s'.sessions[k] == s.sessions[k])
    && (id in s.sessions ==>
          s'.sessions[id] == Session(s.sessions[id].user, s.sessions[id].device, s.sessions[id].port, false, reason))
    && (forall p :: p in s'.leases <==> p in s.leases && s.leases[p].session != id)
    && (forall p | p in s'.leases :: s'.leases[p] == s.leases[p])
  }

  /** Only this socket's bridge is gone from the active map. */
  ghost predicate OnlyActiveGone(s: Server, s': Server, sid: Sid) {
    s'.active == s.active - {sid} && s'.suspended == s.suspended
  }

  ghost predicate OnlySuspendedGone(s: Server, s': Server, id: SessionId) {
    s'.active == s.active && s'.suspended == s.suspended - {id}
  }

  // -- Suspend and resume -------------------------------------------------------------------------------------------

  /** When a socket drops, its bridge waits under its session id, with the time noted and its budgets as they were. */
  lemma DroppedSocketLeavesItsBridgeWaiting(cfg: Config, s: Server, sid: Sid)
    requires Consistent(s) && sid in s.active
    ensures var s', b := Step(cfg, s, SocketDrops(sid)), s.active[sid];
            && s'.active == s.active - {sid}
            && s'.suspended.Keys == s.suspended.Keys + {b.session}
            && s'.suspended[b.session] == Bridge(None, b.session, b.port, true, Some(s.clock), b.startTime,
                                                 b.lastActivity, b.maxRuntime, b.idleTimeout)
            && (forall id | id in s.suspended :: id != b.session && s'.suspended[id] == s.suspended[id])
            && SameDatabase(s, s')
  {
  }

  lemma UnknownSocketsChangeNothing(cfg: Config, s: Server, sid: Sid)
    requires sid !in s.active
    ensures Step(cfg, s, SocketDrops(sid)) == s && Step(cfg, s, ClientLeaves(sid)) == s
    ensures Step(cfg, s, Heartbeat(sid)) == s && Step(cfg, s, CheckTimeout(sid)) == s
  {
  }

  /** A user who comes back within 600 seconds finds the bridge under the new socket: the same session, port and
      budgets, active now, and its start moved by the time it was suspended.  Nothing else changes. */
  lemma ReturningUserGetsTheBridgeBack(s: Server, user: UserId, sid: Sid, device: DeviceId, ports: seq<Port>,
                                       limit: int, opens: bool, id: SessionId)
    requires Consistent(s) && OneSessionEach(s) && sid !in s.active
    requires id in s.sessions && s.sessions[id].active && s.sessions[id].user == user && s.sessions[id].device == device
    requires id in s.suspended && s.suspended[id].suspendedAt.Some?
    requires s.clock - s.suspended[id].suspendedAt.value <= 600
    ensures var (s', answer) := Request(s, user, sid, device, ports, limit, opens);
            var b := s.suspended[id];
            && answer == Resumed(id)
            && s'.suspended == s.suspended - {id}
            && s'.active.Keys == s.active.Keys + {sid}
            && s'.active[sid] == Bridge(Some(sid), id, b.port, true, None,
                                        b.startTime + (s.clock - b.suspendedAt.value), s.clock,
                                        b.maxRuntime, b.idleTimeout)
            && (forall k | k in s.active :: s'.active[k] == s.active[k])
            && SameDatabase(s, s')
  {
    assert id in SessionsOn(s, user, device);
    RequestContinues(s, user, sid, device, ports, limit, opens, id);
  }

  /** A user who comes back later finds the session ended: the request is then as if it had been cleaned up before. */
  lemma LateReturnEndsTheSession(cfg: Config, s: Server, user: UserId, sid: Sid, device: DeviceId, ports: seq<Port>,
                                 limit: int, opens: bool, id: SessionId)
    requires Consistent(s) && OneSessionEach(s) && sid !in s.active
    requires id in s.sessions && s.sessions[id].active && s.sessions[id].user == user && s.sessions[id].device == device
    requires id in s.suspended && s.suspended[id].suspendedAt.Some? && s.clock - s.suspended[id].suspendedAt.value > 600
    ensures Request(s, user, sid, device, ports, limit, opens)
         == Request(Step(cfg, s, CleanUp(id)), user, sid, device, ports, limit, opens)
  {
    assert id in SessionsOn(s, user, device);
    RequestContinues(s, user, sid, device, ports, limit, opens, id);
    ClearedIs(s, user, device, id);
    assert Step(cfg, s, CleanUp(id)) == DropExpired(s, id);
  }

  // -- Ends ---------------------------------------------------------------------------------------------------------

  lemma LeavingEndsTheSession(cfg: Config, s: Server, sid: Sid)
    requires Consistent(s) && sid in s.active
    ensures var s' := Step(cfg, s, ClientLeaves(sid));
            OnlyActiveGone(s, s', sid) && EndsOnly(s, s', s.active[sid].session, UserDisconnect)
  {
  }

  /** The monitor stops a bridge exactly if it has been running, or idle, for longer than it may; the first reason that
      applies is noted. */
  lemma MonitorStopsExactlyTheOverdue(cfg: Config, s: Server, sid: Sid)
    requires Consistent(s) && sid in s.active
    ensures var s', b := Step(cfg, s, CheckTimeout(sid)), s.active[sid];
            var long, idle := s.clock - b.startTime > b.maxRuntime, s.clock - b.lastActivity > b.idleTimeout;
            if long || idle
            then OnlyActiveGone(s, s', sid) && EndsOnly(s, s', b.session, if long then Timeout else IdleTimeout)
            else s' == s
  {
  }

  /** The cleanup ends a suspended session exactly after more than 600 seconds. */
  lemma CleanupEndsExactlyTheLate(cfg: Config, s: Server, id: SessionId)
    requires Consistent(s) && id in s.suspended
    ensures var s' := Step(cfg, s, CleanUp(id));
            && s.suspended[id].suspendedAt.Some?
            && if s.clock - s.suspended[id].suspendedAt.value > 600
               then OnlySuspendedGone(s, s', id) && EndsOnly(s, s', id, UserDisconnect)
               else s' == s
  {
  }

  /** The session's bridge is gone, wherever it was, and no other. */
  ghost predicate OnlyBridgeGone(s: Server, s': Server, id: SessionId) {
    && (forall sid :: sid in s'.active <==> sid in s.active && s.active[sid].session != id)
    && (forall sid | sid in s'.active :: s'.active[sid] == s.active[sid])
    && s'.suspended == s.suspended - {id}
  }

  /** An administrator ends any session, with or without a bridge. */
  lemma AdministratorEndsAnySession(cfg: Config, s: Server, id: SessionId)
    requires Consistent(s)
    ensures var s' := Step(cfg, s, AdminDisconnect(id)); OnlyBridgeGone(s, s', id) && EndsOnly(s, s', id, AdminForce)
  {
    DroppedBridgeIsGone(s, id);
  }

  /** A line that fails takes its bridge and leaves the row and the lease. */
  lemma FailedLineTakesOnlyTheBridge(cfg: Config, s: Server, id: SessionId)
    requires Consistent(s)
    ensures var s' := Step(cfg, s, LineFails(id)); OnlyBridgeGone(s, s', id) && SameDatabase(s, s')
  {
    DroppedBridgeIsGone(s, id);
  }

  lemma DroppedBridgeIsGone(s: Server, id: SessionId)
    requires Consistent(s)
    ensures OnlyBridgeGone(s, DropBridge(s, id), id) && SameDatabase(s, DropBridge(s, id))
  {
    if sid :| sid in s.active && s.active[sid].session == id {
      assert sid in SidsOf(s, id) && id !in s.suspended;
      assert s.suspended - {id} == s.suspended;
    } else {
      assert SidsOf(s, id) == {};
    }
  }

  /** A restart leaves no bridge and no lease, and ends every active session for that reason. */
  lemma RestartEndsEverySession(cfg: Config, s: Server)
    ensures var s' := Step(cfg, s, Restart);
            && s'.active.Keys == {} && s'.suspended.Keys == {} && s'.leases.Keys == {}
            && s'.clock == s.clock && s'.nextId == s.nextId && s'.sessions.Keys == s.sessions.Keys
            && forall k | k in s.sessions ::
                 s'.sessions[k] == if s.sessions[k].active
                                   then Session(s.sessions[k].user, s.sessions[k].device, s.sessions[k].port, false,
                                                ServerRestart)
                                   else s.sessions[k]
  {
  }

  // -- Signs of life ------------------------------------------------------------------------------------------------

  /** A heartbeat counts as activity and gives the session's lease, if it still has one, 300 more seconds from now. */
  lemma HeartbeatTouchesAndRenews(cfg: Config, s: Server, sid: Sid)
    requires Consistent(s) && sid in s.active
    ensures var s', b := Step(cfg, s, Heartbeat(sid)), s.active[sid];
            && s'.active.Keys == s.active.Keys && s'.active[sid] == b.(lastActivity := s.clock)
            && (forall k | k in s.active && k != sid :: s'.active[k] == s.active[k])
            && s'.suspended == s.suspended && s'.sessions == s.sessions && s'.clock == s.clock && s'.nextId == s.nextId
            && s'.leases.Keys == s.leases.Keys
            && forall p | p in s.leases ::
                 s'.leases[p] == if s.leases[p].session == b.session then Lease(b.session, s.clock + 300)
                                 else s.leases[p]
  {
  }

  /** Traffic on the line counts as activity of its bridge, active or suspended, and renews nothing. */
  lemma TrafficTouches(cfg: Config, s: Server, id: SessionId)
    requires Consistent(s)
    ensures var s' := Step(cfg, s, Activity(id));
            && s'.active.Keys == s.active.Keys && s'.suspended.Keys == s.suspended.Keys && SameDatabase(s, s')
            && (forall k | k in s.active ::
                  s'.active[k] == if s.active[k].session == id then s.active[k].(lastActivity := s.clock)
                                  else s.active[k])
            && (forall k | k in s.suspended ::
                  s'.suspended[k] == if k == id then s.suspended[k].(lastActivity := s.clock) else s.suspended[k])
  {
  }

  // -- New sessions -------------------------------------------------------------------------------------------------

  ghost predicate LeaseHolds(s: Server, p: PortId) {
    p in s.leases && s.clock <= s.leases[p].expires
  }

  /** Leases past their time are gone, and with them every session that held one and has no bridge. */
  ghost predicate Recovered(s: Server, r: Server) {
    && r.active == s.active && r.suspended == s.suspended && r.clock == s.clock && r.nextId == s.nextId
    && (forall p :: p in r.leases <==> LeaseHolds(s, p)) && (forall p | p in r.leases :: r.leases[p] == s.leases[p])
    && r.sessions.Keys == s.sessions.Keys
    && forall k | k in s.sessions ::
         r.sessions[k] == if s.sessions[k].active && Bridgeless(s, k) && LeaseLapsed(s, k)
                          then Session(s.sessions[k].user, s.sessions[k].device, s.sessions[k].port, false,
                                       LeaseExpired)
                          else s.sessions[k]
  }

  lemma RecoveryEndsExactlyTheLapsed(s: Server)
    requires Consistent(s)
    ensures Recovered(s, RecoverLeases(s))
  {
    var r := RecoverLeases(s);
    forall k | k in s.sessions
      ensures HasLocalBridge(s, k) <==> !Bridgeless(s, k)
      ensures (exists p :: p in ExpiredLeases(s) && p in s.leases && s.leases[p].session == k) <==> LeaseLapsed(s, k)
    {
      if LeaseLapsed(s, k) {
        var p :| p in s.leases && s.leases[p].session == k && s.leases[p].expires < s.clock;
        assert p in ExpiredLeases(s);
      }
    }
  }

  ghost predicate FirstWithout(s: Server, ports: seq<Port>, i: nat) {
    && i < |ports| && !LeaseHolds(s, ports[i].id)
    && forall k | 0 <= k < i :: LeaseHolds(s, ports[k].id)
  }

  /** What a granted request adds to the recovered server: a row, a lease for 300 seconds, and a bridge with the port's
      budgets, or 3600 seconds of runtime and 300 of idling if the port has none. */
  ghost predicate Adds(r: Server, s': Server, user: UserId, sid: Sid, device: DeviceId, port: Port, id: SessionId) {
    && id !in r.sessions && s'.sessions == r.sessions[id := Session(user, device, port.id, true, NotEnded)]
    && s'.leases == r.leases[port.id := Lease(id, r.clock + 300)]
    && s'.active == r.active[sid := Bridge(Some(sid), id, port.id, true, None, r.clock, r.clock,
                                           if port.maxRuntime == 0 then 3600 else port.maxRuntime,
                                           if port.idleTimeout == 0 then 300 else port.idleTimeout)]
    && s'.suspended == r.suspended && s'.clock == r.clock && s'.nextId == id + 1
  }

  /** What is left of a request whose line does not open: an ended row. */
  ghost predicate NotesFailure(r: Server, s': Server, user: UserId, device: DeviceId, port: Port, id: SessionId) {
    && id !in r.sessions && s'.sessions == r.sessions[id := Session(user, device, port.id, false, OpenError)]
    && s'.leases == r.leases && s'.active == r.active && s'.suspended == r.suspended && s'.clock == r.clock
    && s'.nextId == id + 1
  }

  lemma PlacementAdds(r: Server, user: UserId, sid: Sid, device: DeviceId, ports: seq<Port>, i: nat)
    requires LeasesOk(r) && i < |ports| && i == FirstFree(r.leases, ports) && ports[i].id !in r.leases
    ensures var (s', answer) := Place(r, user, sid, device, ports, true);
            answer == Granted(r.nextId + i) && Adds(r, s', user, sid, device, ports[i], r.nextId + i)
  {
    assert r.nextId + i !in r.sessions;
  }

  lemma PlacementFails(r: Server, user: UserId, sid: Sid, device: DeviceId, ports: seq<Port>, i: nat)
    requires LeasesOk(r) && i < |ports| && i == FirstFree(r.leases, ports) && ports[i].id !in r.leases
    ensures var (s', answer) := Place(r, user, sid, device, ports, false);
            answer == CannotOpen && NotesFailure(r, s', user, device, ports[i], r.nextId + i)
  {
    assert r.nextId + i !in r.sessions;
    NotOpenedSpendsOneRow(r, user, device, ports, i);
  }

  lemma FreeAfterRecovery(s: Server, p: PortId)
    ensures p in RecoverLeases(s).leases <==> LeaseHolds(s, p)
  {
  }

  lemma RecoveredRowsAreOk(s: Server)
    requires LeasesOk(s)
    ensures LeasesOk(RecoverLeases(s)) && RecoverLeases(s).nextId == s.nextId
  {
  }

  lemma FirstWithoutIsFirstFree(s: Server, ports: seq<Port>, i: nat)
    requires FirstWithout(s, ports, i)
    ensures i == FirstFree(RecoverLeases(s).leases, ports) && ports[i].id !in RecoverLeases(s).leases
  {
    forall k | 0 <= k <= i ensures ports[k].id in RecoverLeases(s).leases <==> k < i {
      FreeAfterRecovery(s, ports[k].id);
    }
    FirstFreeUnique(RecoverLeases(s).leases, ports, i);
  }

  lemma SearchPlaces(s: Server, user: UserId, sid: Sid, device: DeviceId, ports: seq<Port>, opens: bool, i: nat)
    requires LeasesOk(s) && FirstWithout(s, ports, i)
    ensures var r := RecoverLeases(s);
            && OpenNew(s, user, sid, device, ports, opens) == Place(r, user, sid, device, ports, opens)
            && LeasesOk(r) && i == FirstFree(r.leases, ports) && ports[i].id !in r.leases && r.nextId == s.nextId
  {
    RecoveredRowsAreOk(s);
    FirstWithoutIsFirstFree(s, ports, i);
  }

  /** A search takes the first port that no current lease covers, after recovering the lapsed ones. */
  lemma SearchTakesTheFirstPort(s: Server, user: UserId, sid: Sid, device: DeviceId, ports: seq<Port>, i: nat)
    requires LeasesOk(s) && FirstWithout(s, ports, i)
    ensures var (s', answer) := OpenNew(s, user, sid, device, ports, true);
            && answer == Granted(s.nextId + i)
            && Adds(RecoverLeases(s), s', user, sid, device, ports[i], s.nextId + i)
  {
    SearchPlaces(s, user, sid, device, ports, true, i);
    PlacementAdds(RecoverLeases(s), user, sid, device, ports, i);
  }

  /** If the line of that port does not open, only an ended row is left. */
  lemma SearchNotesAFailedLine(s: Server, user: UserId, sid: Sid, device: DeviceId, ports: seq<Port>, i: nat)
    requires LeasesOk(s) && FirstWithout(s, ports, i)
    ensures var (s', answer) := OpenNew(s, user, sid, device, ports, false);
            answer == CannotOpen && NotesFailure(RecoverLeases(s), s', user, device, ports[i], s.nextId + i)
  {
    SearchPlaces(s, user, sid, device, ports, false, i);
    PlacementFails(RecoverLeases(s), user, sid, device, ports, i);
  }

  /** If every port is covered, it recovers and takes nothing. */
  lemma SearchFindsNoPort(s: Server, user: UserId, sid: Sid, device: DeviceId, ports: seq<Port>, opens: bool)
    requires ports != [] && forall k | 0 <= k < |ports| :: LeaseHolds(s, ports[k].id)
    ensures OpenNew(s, user, sid, device, ports, opens)
         == (RecoverLeases(s).(nextId := s.nextId + |ports|), AllPortsInUse)
  {
    forall k | 0 <= k < |ports| ensures ports[k].id in RecoverLeases(s).leases {
      FreeAfterRecovery(s, ports[k].id);
    }
    FirstFreeUnique(RecoverLeases(s).leases, ports, |ports|);
  }

  ghost predicate ActiveOn(s: Server, user: UserId, device: DeviceId, id: SessionId) {
    id in s.sessions && s.sessions[id].active && s.sessions[id].user == user && s.sessions[id].device == device
  }

  /** A socket that already has a bridge gets nothing else, whoever asks for what. */
  lemma ConnectedSocketIsRefused(s: Server, user: UserId, sid: Sid, device: DeviceId, ports: seq<Port>, limit: int,
                                 opens: bool)
    requires Consistent(s) && sid in s.active
    ensures Request(s, user, sid, device, ports, limit, opens) == (s, AlreadyConnected)
  {
  }

  /** A user without a session on the device is refused for one on this socket, or for too many elsewhere; otherwise, if
      there are ports at all, the search decides. */
  lemma NewcomerIsAdmittedExactlyWithinTheLimit(s: Server, user: UserId, sid: Sid, device: DeviceId, ports: seq<Port>,
                                                limit: int, opens: bool)
    requires Consistent(s) && forall id :: !ActiveOn(s, user, device, id)
    ensures var held := set id | id in s.sessions && s.sessions[id].active && s.sessions[id].user == user;
            var answer := Request(s, user, sid, device, ports, limit, opens);
            if sid in s.active then answer == (s, AlreadyConnected)
            else if |held| >= limit then answer == (s, TooManySessions)
            else if ports == [] then answer == (s, AllPortsInUse)
            else answer == OpenNew(s, user, sid, device, ports, opens)
  {
    assert SessionsOn(s, user, device) == {} by {
      if id :| id in SessionsOn(s, user, device) {
        assert ActiveOn(s, user, device, id);
      }
    }
    assert ActiveSessions(s, user) == set id | id in s.sessions && s.sessions[id].active && s.sessions[id].user == user;
  }
}
