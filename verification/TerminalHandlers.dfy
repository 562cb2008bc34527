/** What the terminal handlers mean to their callers, and that each is a run of the events the theorems range over. */
module TerminalHandlers {
  import opened Common
  import opened Terminal
  import opened TerminalRuns
  import opened TerminalTheorems
  import opened TerminalPorts
  import TerminalServer

  // -- Handlers that stop several bridges are runs ------------------------------------------------------------------

  function TimeoutEvents(stopped: seq<(Sid, Reason)>): (es: seq<Event>)
    ensures |es| == |stopped|
  {
    seq(|stopped|, i requires 0 <= i < |stopped| => CheckTimeout(stopped[i].0))
  }

  lemma {:induction false} StopAllSpares(s: Server, stopped: seq<(Sid, Reason)>)
    ensures var s' := TerminalServer.StopAll(s, stopped);
            && s'.clock == s.clock
            && forall sid | sid in s.active && (forall i | 0 <= i < |stopped| :: stopped[i].0 != sid) ::
                 sid in s'.active && s'.active[sid] == s.active[sid]
  {
    if stopped != [] {
      StopAllSpares(s, stopped[..|stopped| - 1]);
    }
  }

  lemma TimeoutIsAStop(cfg: Config, s: Server, t: Server, sid: Sid, reason: Reason)
    requires sid in s.active && Overdue(s, s.active[sid]) == Some(reason)
    requires t.clock == s.clock && sid in t.active && t.active[sid] == s.active[sid]
    ensures Step(cfg, t, CheckTimeout(sid)) == Stop(t, sid, reason)
  {
  }

  /** check_timeouts decides for all bridges first; stopping them one event at a time comes to the same. */
  lemma {:induction false} CheckTimeoutsIsARun(cfg: Config, s: Server, stopped: seq<(Sid, Reason)>)
    requires forall i | 0 <= i < |stopped| ::
               stopped[i].0 in s.active && Overdue(s, s.active[stopped[i].0]) == Some(stopped[i].1)
    requires forall i, j | 0 <= i < j < |stopped| :: stopped[i].0 != stopped[j].0
    ensures TerminalServer.StopAll(s, stopped) == Run(cfg, s, TimeoutEvents(stopped))
  {
    if stopped != [] {
      var n := |stopped| - 1;
      var front := stopped[..n];
      CheckTimeoutsIsARun(cfg, s, front);
      StopAllSpares(s, front);
      RunSnoc(cfg, s, TimeoutEvents(front), CheckTimeout(stopped[n].0));
      assert TimeoutEvents(stopped) == TimeoutEvents(front) + [CheckTimeout(stopped[n].0)];
      TimeoutIsAStop(cfg, s, TerminalServer.StopAll(s, front), stopped[n].0, stopped[n].1);
    }
  }

  function CleanUpEvents(dropped: seq<SessionId>): (es: seq<Event>)
    ensures |es| == |dropped|
  {
    seq(|dropped|, i requires 0 <= i < |dropped| => CleanUp(dropped[i]))
  }

  lemma {:induction false} DropAllSpares(s: Server, dropped: seq<SessionId>)
    ensures var s' := TerminalServer.DropAll(s, dropped);
            && s'.clock == s.clock
            && forall id | id in s.suspended && id !in dropped ::
                 id in s'.suspended && s'.suspended[id] == s.suspended[id]
  {
    if dropped != [] {
      DropAllSpares(s, dropped[..|dropped| - 1]);
    }
  }

  lemma CleanUpIsADrop(cfg: Config, s: Server, t: Server, id: SessionId)
    requires id in s.suspended && GraceOver(s, s.suspended[id])
    requires t.clock == s.clock && id in t.suspended && t.suspended[id] == s.suspended[id]
    ensures Step(cfg, t, CleanUp(id)) == DropExpired(t, id)
  {
  }

  /** Likewise for cleanup_suspended. */
  lemma {:induction false} CleanupSuspendedIsARun(cfg: Config, s: Server, dropped: seq<SessionId>)
    requires forall i | 0 <= i < |dropped| :: dropped[i] in s.suspended && GraceOver(s, s.suspended[dropped[i]])
    requires forall i, j | 0 <= i < j < |dropped| :: dropped[i] != dropped[j]
    ensures TerminalServer.DropAll(s, dropped) == Run(cfg, s, CleanUpEvents(dropped))
  {
    if dropped != [] {
      var n := |dropped| - 1;
      var front := dropped[..n];
      CleanupSuspendedIsARun(cfg, s, front);
      DropAllSpares(s, front);
      assert dropped[n] !in front;
      CleanUpIsADrop(cfg, s, TerminalServer.DropAll(s, front), dropped[n]);
      RunSnoc(cfg, s, CleanUpEvents(front), CleanUp(dropped[n]));
      assert CleanUpEvents(dropped) == CleanUpEvents(front) + [CleanUp(dropped[n])];
    }
  }

  // -- Answers ------------------------------------------------------------------------------------------------------

  /** A user who already has an active session on the device is resumed exactly if its bridge is suspended within the
      grace period, and refused, with nothing changed, exactly if it has no suspended bridge.  So after a line failure,
      which leaves the row active without a bridge, the user's own requests are refused at any later time: they never
      get as far as recovering the lapsed lease. */
  lemma AnswerToReturningUser(s: Server, user: UserId, sid: Sid, device: DeviceId, ports: seq<Port>, limit: int,
                              opens: bool, id: SessionId)
    requires Consistent(s) && OneSessionEach(s) && sid !in s.active && id in SessionsOn(s, user, device)
    ensures var (s', answer) := Request(s, user, sid, device, ports, limit, opens);
            && (answer == Resumed(id) <==> id in s.suspended && !GraceOver(s, s.suspended[id]))
            && (answer == AlreadyActive <==> id !in s.suspended)
            && (answer == AlreadyActive ==> s' == s)
  {
    RequestContinues(s, user, sid, device, ports, limit, opens, id);
    ResumeKeeps(s, sid, id);
    if id in s.suspended && GraceOver(s, s.suspended[id]) {
      assert Resume(s, sid, id).0 == DropExpired(s, id);
    }
  }

  /** A session without a bridge keeps its user off the device while its row is active. */
  lemma RefusedWithoutABridge(t: Server, sid: Sid, ports: seq<Port>, limit: int, opens: bool, id: SessionId)
    requires Consistent(t) && OneSessionEach(t) && ActiveRow(t, id) && Bridgeless(t, id)
    ensures var (t', answer) := Request(t, t.sessions[id].user, sid, t.sessions[id].device, ports, limit, opens);
            t' == t && answer == if sid in t.active then AlreadyConnected else AlreadyActive
  {
    if sid !in t.active {
      AnswerToReturningUser(t, t.sessions[id].user, sid, t.sessions[id].device, ports, limit, opens, id);
    }
  }

  /** In every run, after the line of a session fails, whether its bridge was active or suspended, and whatever happens
      next: as long as the row stays active, its user's requests for the device are refused and change nothing. */
  lemma FailedLineKeepsItsUserOut(cfg: Config, clock: int, es: seq<Event>, more: seq<Event>, id: SessionId, sid: Sid,
                                  ports: seq<Port>, limit: int, opens: bool)
    requires id in Run(cfg, Initial(clock), es).sessions
    requires ActiveRow(Run(cfg, Initial(clock), es + [LineFails(id)] + more), id)
    ensures var row := Run(cfg, Initial(clock), es).sessions[id];
            var t := Run(cfg, Initial(clock), es + [LineFails(id)] + more);
            var refusal := if sid in t.active then AlreadyConnected else AlreadyActive;
            Request(t, row.user, sid, row.device, ports, limit, opens) == (t, refusal)
  {
    var s := Run(cfg, Initial(clock), es);
    ConsistentInEveryRun(cfg, clock, es);
    RunSnoc(cfg, Initial(clock), es, LineFails(id));
    DropBridgeKeeps(s, id);
    BridgelessForGood(cfg, clock, es + [LineFails(id)], more, id);
    ConsistentInEveryRun(cfg, clock, es + [LineFails(id)] + more);
    RefusedWithoutABridge(Run(cfg, Initial(clock), es + [LineFails(id)] + more), sid, ports, limit, opens, id);
  }

  /** A granted session has the first listed port that no unexpired lease covers, and holds its lease. */
  lemma GrantGetsFirstFreePort(s: Server, user: UserId, sid: Sid, device: DeviceId, ports: seq<Port>, opens: bool,
                               id: SessionId)
    requires Consistent(s) && OpenNew(s, user, sid, device, ports, opens).1 == Granted(id)
    ensures var s' := OpenNew(s, user, sid, device, ports, opens).0;
            && id !in s.sessions && sid in s'.active && s'.active[sid].session == id && Holds(s', s'.active[sid])
            && exists i | 0 <= i < |ports| ::
                 && s'.active[sid].port == ports[i].id
                 && (forall k | 0 <= k < i :: ports[k].id in s.leases && s.clock <= s.leases[ports[k].id].expires)
                 && (ports[i].id in s.leases ==> s.leases[ports[i].id].expires < s.clock)
  {
    var r := RecoverLeases(s);
    FirstFreeIsFree(r.leases, ports);
    var i := FirstFree(r.leases, ports);
    assert ports[i].id !in r.leases;
  }

  // -- Renewal ------------------------------------------------------------------------------------------------------

  /** A heartbeat gives its own session's lease a full term and leaves every other lease alone. */
  lemma HeartbeatRenewsItsOwnLease(s: Server, sid: Sid)
    requires Consistent(s) && sid in s.active && Holds(s, s.active[sid])
    ensures var s' := HeartbeatFrom(s, sid);
            && Holds(s', s'.active[sid])
            && s'.leases[s.active[sid].port].expires == s.clock + LEASE_SECONDS
            && s'.leases.Keys == s.leases.Keys
            && forall p | p in s.leases && p != s.active[sid].port :: s'.leases[p] == s.leases[p]
  {
  }
}
