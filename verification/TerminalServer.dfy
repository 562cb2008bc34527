/** The terminal handlers as the server process performs them, in place on its two bridge maps and on the database. */
module TerminalServer {
  import opened Common
  import opened Terminal

  class Process {
    var clock: int
    var active: map<Sid, Bridge>
    var suspended: map<SessionId, Bridge>
    var sessions: map<SessionId, Session>
    var leases: map<PortId, Lease>
    var nextId: SessionId

    function State(): Server
      reads this
    {
      Server(clock, active, suspended, sessions, leases, nextId)
    }

    constructor (now: int)
      ensures State() == Server(now, map[], map[], map[], map[], 0)
    {
      clock := now;
      active := map[];
      suspended := map[];
      sessions := map[];
      leases := map[];
      nextId := 0;
    }

    /** _has_local_bridge */
    method FindLocalBridge(id: SessionId) returns (found: bool)
      ensures found <==> HasLocalBridge(State(), id)
    {
      var sids := active.Keys;
      while sids != {}
        invariant sids <= active.Keys
        invariant forall sid | sid in active.Keys - sids :: !(active[sid].session == id && active[sid].running)
        decreases sids
      {
        var sid :| sid in sids;
        if active[sid].session == id && active[sid].running {
          return true;
        }
        sids := sids - {sid};
      }
      var ids := suspended.Keys;
      while ids != {}
        invariant ids <= suspended.Keys
        invariant forall k | k in suspended.Keys - ids :: !(suspended[k].session == id && suspended[k].running)
        decreases ids
      {
        var k :| k in ids;
        if suspended[k].session == id && suspended[k].running {
          return true;
        }
        ids := ids - {k};
      }
      found := false;
    }

    method EndSessionRow(id: SessionId, reason: Reason)
      modifies `sessions, `leases
      ensures State() == EndSession(old(State()), id, reason)
    {
      if id in sessions {
        sessions := sessions[id := sessions[id].(active := false, reason := reason)];
      }
      leases := map p | p in leases && leases[p].session != id :: leases[p];
    }

    /** One iteration of recover_stale_leases. */
    method RecoverLease(port: PortId, ghost s: Server, ghost done: set<PortId>)
      requires State() == RecoverPorts(s, done) && port in s.leases && port !in done
      modifies `sessions, `leases
      ensures State() == RecoverPorts(s, done + {port})
    {
      var id := leases[port].session;
      var local := FindLocalBridge(id);
      ghost var before := sessions;
      if !local && id in sessions && sessions[id].active {
        sessions := sessions[id := sessions[id].(active := false, reason := LeaseExpired)];
      }
      leases := leases - {port};
      RecoverOneMore(s, done, port);
      assert sessions == RecoverPorts(s, done + {port}).sessions;
    }

    /** recover_stale_leases */
    method RecoverStaleLeases()
      modifies `sessions, `leases
      ensures State() == RecoverLeases(old(State()))
    {
      ghost var s := State();
      var expired := set p | p in leases && leases[p].expires < clock;
      ghost var all := expired;
      RecoverNone(s);
      while expired != {}
        invariant expired <= all == ExpiredLeases(s)
        invariant State() == RecoverPorts(s, all - expired)
        decreases expired
      {
        var port :| port in expired;
        RecoverLease(port, s, all - expired);
        assert all - expired + {port} == all - (expired - {port});
        expired := expired - {port};
      }
      assert all - expired == all;
    }

    method AcquirePortLease(port: PortId, id: SessionId) returns (ok: bool)
      modifies `sessions, `leases
      ensures var r := RecoverLeases(old(State()));
              if port in r.leases then !ok && State() == r
              else ok && State() == r.(leases := r.leases[port := Lease(id, r.clock + LEASE_SECONDS)])
    {
      RecoverStaleLeases();
      if port in leases {
        return false;  // the unique constraint on port_id
      }
      leases := leases[port := Lease(id, clock + LEASE_SECONDS)];
      ok := true;
    }

    method StartBridge(sid: Sid, id: SessionId, port: Port, opens: bool) returns (ok: bool)
      modifies `active
      ensures ok <==> sid !in old(active) && opens
      ensures State() == if ok then old(State()).(active := old(active)[sid := NewBridge(old(State()), sid, id, port)])
                         else old(State())
    {
      if sid in active || !opens {
        return false;
      }
      active := active[sid := Bridge(Some(sid), id, port.id, true, None, clock, clock,
                                     if port.maxRuntime != 0 then port.maxRuntime else 3600,
                                     if port.idleTimeout != 0 then port.idleTimeout else 300)];
      ok := true;
    }

    method SuspendBridge(sid: Sid)
      modifies `active, `suspended
      ensures State() == Suspend(old(State()), sid)
    {
      if sid !in active {
        return;
      }
      var bridge := active[sid];
      active := active - {sid};
      bridge := bridge.(running := true, suspendedAt := Some(clock), sid := None);
      suspended := suspended[bridge.session := bridge];
    }

    method ResumeBridge(sid: Sid, id: SessionId) returns (resumed: bool)
      modifies this
      ensures (State(), resumed) == Resume(old(State()), sid, id)
    {
      if id !in suspended {
        return false;
      }
      var bridge := suspended[id];
      suspended := suspended - {id};
      if bridge.suspendedAt.Some? && clock - bridge.suspendedAt.value > GRACE_PERIOD {
        EndSessionRow(id, UserDisconnect);
        return false;
      }
      bridge := bridge.(sid := Some(sid), lastActivity := clock);
      if bridge.suspendedAt.Some? {
        bridge := bridge.(startTime := bridge.startTime + (clock - bridge.suspendedAt.value), suspendedAt := None);
      }
      active := active[sid := bridge];
      resumed := true;
    }

    method StopBridge(sid: Sid, reason: Reason)
      modifies this
      ensures State() == Stop(old(State()), sid, reason)
    {
      if sid !in active {
        return;
      }
      var bridge := active[sid];
      active := active - {sid};
      EndSessionRow(bridge.session, reason);
    }

    /** check_timeouts: decide for every active bridge first, then stop the overdue ones in turn. */
    method CheckTimeouts() returns (stopped: seq<(Sid, Reason)>)
      modifies this
      ensures State() == StopAll(old(State()), stopped)
      ensures forall sid, reason :: (sid, reason) in stopped <==>
                sid in old(active) && Overdue(old(State()), old(active)[sid]) == Some(reason)
      ensures forall i, j | 0 <= i < j < |stopped| :: stopped[i].0 != stopped[j].0
    {
      ghost var s := State();
      stopped := [];
      var sids := active.Keys;
      while sids != {}
        invariant sids <= active.Keys && State() == s
        invariant forall sid, reason :: (sid, reason) in stopped <==>
                    sid in active && sid !in sids && Overdue(s, active[sid]) == Some(reason)
        invariant forall i, j | 0 <= i < j < |stopped| :: stopped[i].0 != stopped[j].0
        decreases sids
      {
        var sid :| sid in sids;
        var bridge := active[sid];
        if bridge.running {
          if clock - bridge.startTime > bridge.maxRuntime {
            assert forall i | 0 <= i < |stopped| :: stopped[i] in stopped && stopped[i].0 != sid;
            stopped := stopped + [(sid, Timeout)];
          } else if clock - bridge.lastActivity > bridge.idleTimeout {
            assert forall i | 0 <= i < |stopped| :: stopped[i] in stopped && stopped[i].0 != sid;
            stopped := stopped + [(sid, IdleTimeout)];
          }
        }
        sids := sids - {sid};
      }
      var n := 0;
      while n < |stopped|
        invariant 0 <= n <= |stopped|
        invariant State() == StopAll(s, stopped[..n])
      {
        StopBridge(stopped[n].0, stopped[n].1);
        assert stopped[..n + 1][..n] == stopped[..n];
        n := n + 1;
      }
      assert stopped[..n] == stopped;
    }

    /** cleanup_suspended: collect the bridges past the grace period, then drop them in turn. */
    method CleanupSuspended() returns (dropped: seq<SessionId>)
      modifies this
      ensures State() == DropAll(old(State()), dropped)
      ensures forall id :: id in dropped <==> id in old(suspended) && GraceOver(old(State()), old(suspended)[id])
      ensures forall i, j | 0 <= i < j < |dropped| :: dropped[i] != dropped[j]
    {
      ghost var s := State();
      dropped := [];
      var ids := suspended.Keys;
      while ids != {}
        invariant ids <= suspended.Keys && State() == s
        invariant forall id :: id in dropped <==> id in suspended && id !in ids && GraceOver(s, suspended[id])
        invariant forall i, j | 0 <= i < j < |dropped| :: dropped[i] != dropped[j]
        decreases ids
      {
        var id :| id in ids;
        var bridge := suspended[id];
        if bridge.suspendedAt.Some? && clock - bridge.suspendedAt.value > GRACE_PERIOD {
          assert forall i | 0 <= i < |dropped| :: dropped[i] in dropped && dropped[i] != id;
          dropped := dropped + [id];
        }
        ids := ids - {id};
      }
      var n := 0;
      while n < |dropped|
        invariant 0 <= n <= |dropped|
        invariant State() == DropAll(s, dropped[..n])
      {
        suspended := suspended - {dropped[n]};
        EndSessionRow(dropped[n], UserDisconnect);
        assert dropped[..n + 1][..n] == dropped[..n];
        n := n + 1;
      }
      assert dropped[..n] == dropped;
    }

    /** A new process starts with empty maps and cleans up what the last one left in the database. */
    method Restart()
      modifies this
      ensures State() == Restarted(old(State()))
    {
      active, suspended := map[], map[];
      leases := map[];
      var orphaned := set id | id in sessions && sessions[id].active;
      while orphaned != {}
        invariant State() == old(State()).(active := map[], suspended := map[], sessions := sessions, leases := map[])
        invariant sessions.Keys == old(sessions).Keys && orphaned <= sessions.Keys
        invariant forall id | id in orphaned :: sessions[id] == old(sessions)[id] && sessions[id].active
        invariant forall id | id in sessions && id !in orphaned ::
                    sessions[id] == if old(sessions)[id].active
                                    then old(sessions)[id].(active := false, reason := ServerRestart)
                                    else old(sessions)[id]
        decreases orphaned
      {
        var id :| id in orphaned;
        sessions := sessions[id := sessions[id].(active := false, reason := ServerRestart)];
        orphaned := orphaned - {id};
      }
      assert sessions == Restarted(old(State())).sessions;
    }

    /** find_bridge_sid */
    method FindBridgeSid(id: SessionId) returns (found: Option<Sid>)
      ensures found.None? <==> forall sid | sid in SidsOf(State(), id) :: !active[sid].running
      ensures found.Some? ==> found.value in SidsOf(State(), id) && active[found.value].running
    {
      var sids := active.Keys;
      while sids != {}
        invariant sids <= active.Keys
        invariant forall sid | sid in active.Keys - sids :: !(active[sid].session == id && active[sid].running)
        decreases sids
      {
        var sid :| sid in sids;
        if active[sid].session == id && active[sid].running {
          return Some(sid);
        }
        sids := sids - {sid};
      }
      found := None;
    }

    method ForceDisconnectSession(id: SessionId)
      requires BridgesOk(State()) && OneBridgeEach(State())
      modifies this
      ensures State() == ForceDisconnect(old(State()), id)
    {
      var sid := FindBridgeSid(id);
      if sid.Some? {
        assert SidsOf(State(), id) == {sid.value};
        StopBridge(sid.value, AdminForce);
        return;
      }
      if id in suspended {
        suspended := suspended[id := suspended[id].(running := false)];
        RemoveBridge(id);
      }
      EndSessionRow(id, AdminForce);
    }

    /** _remove_bridge_by_session: whether or not the bridge still counts as running. */
    method RemoveBridge(id: SessionId)
      requires OneBridgeEach(State())
      modifies `active, `suspended
      ensures State() == DropBridge(old(State()), id)
    {
      var sids := active.Keys;
      while sids != {}
        invariant sids <= active.Keys
        invariant forall sid | sid in active.Keys - sids :: active[sid].session != id
        decreases sids
      {
        var sid :| sid in sids;
        if active[sid].session == id {
          assert SidsOf(State(), id) == {sid};
          active := active - {sid};
          return;
        }
        sids := sids - {sid};
      }
      suspended := suspended - {id};
    }

    /** The reader thread's way out when the line fails: the bridge stops running and is removed. */
    method CloseFailedLine(id: SessionId)
      requires OneBridgeEach(State())
      modifies `active, `suspended
      ensures State() == DropBridge(old(State()), id)
    {
      var sid := FindBridgeSid(id);
      if sid.Some? {
        StoppedActiveIsDropped(State(), sid.value);
        active := active[sid.value := active[sid.value].(running := false)];
      } else if id in suspended {
        StoppedSuspendedIsDropped(State(), id);
        suspended := suspended[id := suspended[id].(running := false)];
      }
      RemoveBridge(id);
    }

    /** One attempt at a port: create the session row, try for the lease, delete the row again on failure. */
    method TryPort(user: UserId, device: DeviceId, port: Port) returns (acquired: bool)
      requires FreshFrom(State(), nextId)
      modifies `sessions, `leases, `nextId
      ensures var r := RecoverLeases(old(State()));
              && (acquired <==> port.id !in r.leases)
              && State() == if acquired then Lend(r, user, device, [port], 0) else r.(nextId := r.nextId + 1)
    {
      ghost var s := State();
      ghost var r := RecoverLeases(s);
      var id := nextId;
      var row := Session(user, device, port.id, true, NotEnded);
      sessions := sessions[id := row];
      nextId := id + 1;
      RecoverIgnoresFreshRow(s, row);
      ghost var t := r.(sessions := r.sessions[id := row], nextId := id + 1);
      assert RecoverLeases(State()) == t;
      assert id !in r.sessions;
      acquired := AcquirePortLease(port.id, id);
      if acquired {
        LentAfterRow(r, user, device, port);
        assert State() == t.(leases := t.leases[port.id := Lease(id, t.clock + LEASE_SECONDS)]);
      } else {
        RemoveAdded(r.sessions, id, row);
        sessions := sessions - {id};
      }
    }

    /** The port search. */
    method FindPort(user: UserId, device: DeviceId, ports: seq<Port>) returns (i: nat)
      requires FreshFrom(State(), nextId)
      modifies `sessions, `leases, `nextId
      ensures var r := if ports == [] then old(State()) else RecoverLeases(old(State()));
              && i == FirstFree(r.leases, ports) <= |ports|
              && State() == if i == |ports| then r.(nextId := r.nextId + i) else Lend(r, user, device, ports, i)
    {
      ghost var s := State();
      ghost var r := if ports == [] then s else RecoverLeases(s);
      i := 0;
      while i < |ports|
        invariant 0 <= i <= |ports|
        invariant forall k | 0 <= k < i :: ports[k].id in r.leases
        invariant State() == if i == 0 then s else r.(nextId := s.nextId + i)
      {
        if i > 0 { RecoverTwice(s, s.nextId + i); }
        var acquired := TryPort(user, device, ports[i]);
        if acquired {
          break;
        }
        i := i + 1;
      }
      FirstFreeUnique(r.leases, ports, i);
    }

    /** handle_request_session, after the checks on user, maintenance mode and device. */
    method HandleRequestSession(user: UserId, sid: Sid, device: DeviceId, ports: seq<Port>, limit: int, opens: bool)
      returns (answer: Answer)
      requires Consistent(State()) && OneSessionEach(State())
      modifies this
      ensures (State(), answer) == Request(old(State()), user, sid, device, ports, limit, opens)
    {
      if sid in active && active[sid].running {
        return AlreadyConnected;
      }
      var existing := SessionsOn(State(), user, device);
      if existing != {} {
        var id :| id in existing;
        RequestContinues(State(), user, sid, device, ports, limit, opens, id);
        var resumed := ResumeBridge(sid, id);
        if resumed {
          return Resumed(id);
        }
        if sessions[id].active {
          return AlreadyActive;
        }
        assert FreshFrom(State(), nextId);
      }
      answer := OpenSession(user, sid, device, ports, limit, opens);
    }

    method OpenSession(user: UserId, sid: Sid, device: DeviceId, ports: seq<Port>, limit: int, opens: bool)
      returns (answer: Answer)
      requires FreshFrom(State(), nextId) && sid !in active
      modifies this
      ensures (State(), answer) == Admit(old(State()), user, sid, device, ports, limit, opens)
    {
      if |ActiveSessions(State(), user)| >= limit {
        return TooManySessions;
      }
      ghost var r := if ports == [] then State() else RecoverLeases(State());
      var i := FindPort(user, device, ports);
      if i == |ports| {
        return AllPortsInUse;
      }
      var id := nextId - 1;
      ghost var lent := Lend(r, user, device, ports, i);
      assert State() == lent && id == r.nextId + i;
      var success := StartBridge(sid, id, ports[i], opens);
      if !success {
        EndSessionRow(id, OpenError);
        return CannotOpen;
      }
      answer := Granted(id);
    }

    /** handle_heartbeat */
    method HandleHeartbeat(sid: Sid)
      modifies this
      ensures State() == HeartbeatFrom(old(State()), sid)
    {
      if sid in active && active[sid].running {
        active := active[sid := active[sid].(lastActivity := clock)];
        var id := active[sid].session;
        leases := map p | p in leases ::
                    if leases[p].session == id then leases[p].(expires := clock + LEASE_SECONDS) else leases[p];
      }
    }
  }

  function StopAll(s: Server, stopped: seq<(Sid, Reason)>): Server {
    if stopped == [] then s
    else Stop(StopAll(s, stopped[..|stopped| - 1]), stopped[|stopped| - 1].0, stopped[|stopped| - 1].1)
  }

  function DropAll(s: Server, dropped: seq<SessionId>): Server {
    if dropped == [] then s else DropExpired(DropAll(s, dropped[..|dropped| - 1]), dropped[|dropped| - 1])
  }

  lemma RecoverNone(s: Server)
    ensures RecoverPorts(s, {}) == s
  {
    assert s.leases - {} == s.leases;
    assert RecoverPorts(s, {}).sessions == s.sessions;
  }

  /** Recovering one more lease ends its session if that is still active and has no bridge here. */
  lemma RecoverOneMore(s: Server, done: set<PortId>, port: PortId)
    requires port in s.leases
    ensures var id := s.leases[port].session;
            var t := RecoverPorts(s, done);
            var t' := RecoverPorts(s, done + {port});
            && t'.leases == t.leases - {port}
            && t'.sessions == if id in t.sessions && t.sessions[id].active && !HasLocalBridge(s, id)
                              then t.sessions[id := t.sessions[id].(active := false, reason := LeaseExpired)]
                              else t.sessions
  {
  }

  /** No row has this id or a later one, and no lease refers to one. */
  ghost predicate FreshFrom(s: Server, id: SessionId) {
    (forall p | p in s.leases :: s.leases[p].session < id) && forall k | k in s.sessions :: k < id
  }

  /** A bridge that no longer runs is removed like one that does. */
  lemma StoppedActiveIsDropped(s: Server, sid: Sid)
    requires OneBridgeEach(s) && sid in s.active
    ensures var s' := s.(active := s.active[sid := s.active[sid].(running := false)]);
            OneBridgeEach(s') && DropBridge(s', s.active[sid].session) == DropBridge(s, s.active[sid].session)
  {
    var s' := s.(active := s.active[sid := s.active[sid].(running := false)]);
    assert SidsOf(s', s.active[sid].session) == SidsOf(s, s.active[sid].session) == {sid};
    assert s'.active - {sid} == s.active - {sid};
  }

  lemma StoppedSuspendedIsDropped(s: Server, id: SessionId)
    requires OneBridgeEach(s) && id in s.suspended
    ensures var s' := s.(suspended := s.suspended[id := s.suspended[id].(running := false)]);
            OneBridgeEach(s') && DropBridge(s', id) == DropBridge(s, id)
  {
    var s' := s.(suspended := s.suspended[id := s.suspended[id].(running := false)]);
    assert SidsOf(s', id) == SidsOf(s, id) == {};
    assert s'.suspended - {id} == s.suspended - {id};
  }

  lemma LentAfterRow(r: Server, user: UserId, device: DeviceId, port: Port)
    ensures var id := r.nextId;
            var t := r.(sessions := r.sessions[id := Session(user, device, port.id, true, NotEnded)], nextId := id + 1);
            t.(leases := t.leases[port.id := Lease(id, t.clock + LEASE_SECONDS)]) == Lend(r, user, device, [port], 0)
  {
  }

  lemma RemoveAdded(rows: map<SessionId, Session>, id: SessionId, row: Session)
    requires id !in rows
    ensures rows[id := row] - {id} == rows
  {
  }

  /** Which sessions a recovery ends depends on bridges and leases only. */
  lemma SameLosses(s: Server, t: Server, ports: set<PortId>)
    requires t.active == s.active && t.suspended == s.suspended && t.leases == s.leases
    ensures forall k :: LosesLease(t, ports, k) == LosesLease(s, ports, k)
  {
    assert forall k :: HasLocalBridge(t, k) == HasLocalBridge(s, k);
  }

  /** A row that no lease refers to is no concern of recovery. */
  lemma RecoverIgnoresFreshRow(s: Server, row: Session)
    requires FreshFrom(s, s.nextId)
    ensures var r := RecoverLeases(s);
            RecoverLeases(s.(sessions := s.sessions[s.nextId := row], nextId := s.nextId + 1))
            == r.(sessions := r.sessions[s.nextId := row], nextId := s.nextId + 1)
  {
    var t := s.(sessions := s.sessions[s.nextId := row], nextId := s.nextId + 1);
    var expired := ExpiredLeases(s);
    assert ExpiredLeases(t) == expired;
    SameLosses(s, t, expired);
    assert !LosesLease(s, expired, s.nextId);
    assert RecoverPorts(t, expired).sessions == RecoverPorts(s, expired).sessions[s.nextId := row];
  }

  /** Recovering twice at one instant changes nothing more. */
  lemma RecoverTwice(s: Server, nextId: SessionId)
    requires FreshFrom(s, s.nextId) && nextId >= s.nextId
    ensures var r := RecoverLeases(s).(nextId := nextId);
            RecoverLeases(r) == r && FreshFrom(r, nextId)
  {
    var r := RecoverLeases(s).(nextId := nextId);
    assert ExpiredLeases(r) == {};
    RecoverNone(r);
  }
}
