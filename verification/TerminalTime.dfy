/** Runtime budgets count active time only. */
module TerminalTime {
  import opened Common
  import opened Terminal
  import opened TerminalRuns
  import opened TerminalTheorems

  ghost predicate IsActive(s: Server, id: SessionId) {
    exists sid :: sid in s.active && s.active[sid].session == id
  }

  /** The total time a session's bridge has been active over a run, read off the history. */
  ghost function ActiveTime(cfg: Config, clock: int, es: seq<Event>, id: SessionId): nat {
    if es == [] then 0
    else
      var front, e := es[..|es| - 1], es[|es| - 1];
      ActiveTime(cfg, clock, front, id)
      + (if e.Tick? && IsActive(Run(cfg, Initial(clock), front), id) then e.seconds else 0)
  }

  /** Where an active bridge came from: it was already there, or was resumed, or is new. */
  ghost predicate ActiveOrigin(s: Server, b: Bridge) {
    || (exists sid :: sid in s.active && s.active[sid].session == b.session && s.active[sid].startTime == b.startTime)
    || (b.session in s.suspended && s.suspended[b.session].suspendedAt.Some?
        && b.startTime == s.suspended[b.session].startTime + s.clock - s.suspended[b.session].suspendedAt.value)
    || (b.session >= s.nextId && b.startTime == s.clock)
  }

  /** Where a suspended bridge came from: it was already suspended, or was active until now. */
  ghost predicate SuspendedOrigin(s: Server, b: Bridge) {
    || (b.session in s.suspended && s.suspended[b.session].startTime == b.startTime
        && s.suspended[b.session].suspendedAt == b.suspendedAt)
    || (b.suspendedAt == Some(s.clock)
        && exists sid ::
             sid in s.active && s.active[sid].session == b.session && s.active[sid].startTime == b.startTime)
  }

  ghost predicate Descends(s: Server, s': Server) {
    && s'.clock == s.clock && s'.nextId >= s.nextId
    && (forall sid | sid in s'.active :: ActiveOrigin(s, s'.active[sid]))
    && (forall id | id in s'.suspended :: SuspendedOrigin(s, s'.suspended[id]))
  }

  lemma StopDescends(s: Server, sid: Sid, reason: Reason)
    requires Consistent(s)
    ensures Descends(s, s) && Descends(s, Stop(s, sid, reason))
  {
  }

  lemma SuspendDescends(s: Server, sid: Sid)
    requires Consistent(s)
    ensures Descends(s, Suspend(s, sid))
  {
    if sid in s.active {
      var s' := Suspend(s, sid);
      assert SuspendedOrigin(s, s'.suspended[s.active[sid].session]);
    }
  }

  lemma SessionEndsDescend(s: Server, id: SessionId)
    requires Consistent(s)
    ensures Descends(s, DropBridge(s, id)) && Descends(s, ForceDisconnect(s, id)) && Descends(s, DropExpired(s, id))
  {
  }

  lemma ResumeDescends(s: Server, sid: Sid, id: SessionId)
    requires Consistent(s) && sid !in s.active
    ensures Descends(s, Resume(s, sid, id).0)
  {
  }

  /** Recovery, row changes and a new bridge on a fresh id. */
  lemma OpenNewDescends(s: Server, user: UserId, sid: Sid, device: DeviceId, ports: seq<Port>, opens: bool, s0: Server)
    requires Consistent(s) && Descends(s0, s)
    ensures Descends(s0, OpenNew(s, user, sid, device, ports, opens).0)
  {
    var r := if ports == [] then s else RecoverLeases(s);
    RecoverKeeps(s);
    var i := PlaceCases(r, user, sid, device, ports, opens);
  }

  lemma ContinueDescends(s: Server, user: UserId, sid: Sid, device: DeviceId, ports: seq<Port>, limit: int, opens: bool,
                         id: SessionId)
    requires Consistent(s) && sid !in s.active && id in SessionsOn(s, user, device)
    ensures Descends(s, Continue(s, user, sid, device, ports, limit, opens, id).0)
  {
    ResumeKeeps(s, sid, id);
    ResumeDescends(s, sid, id);
    if id in s.suspended && GraceOver(s, s.suspended[id]) {
      OpenNewDescends(Resume(s, sid, id).0, user, sid, device, ports, opens, s);
    }
  }

  lemma RequestDescends(s: Server, user: UserId, sid: Sid, device: DeviceId, ports: seq<Port>, limit: int, opens: bool)
    requires Consistent(s) && OneSessionEach(s)
    ensures Descends(s, Request(s, user, sid, device, ports, limit, opens).0)
  {
    StopDescends(s, sid, NotEnded);
    if sid !in s.active {
      if id :| id in SessionsOn(s, user, device) {
        RequestContinues(s, user, sid, device, ports, limit, opens, id);
        ContinueDescends(s, user, sid, device, ports, limit, opens, id);
      } else {
        OpenNewDescends(s, user, sid, device, ports, opens, s);
      }
    }
  }

  lemma StepDescends(cfg: Config, s: Server, e: Event)
    requires Consistent(s) && OneSessionEach(s) && !e.Tick?
    ensures Descends(s, Step(cfg, s, e))
  {
    match e
    case RequestSession(user, sid, device, opens) =>
      StopDescends(s, sid, NotEnded);
      if device in cfg.ports && user in cfg.limits {
        RequestDescends(s, user, sid, device, cfg.ports[device], cfg.limits[user], opens);
      }
    case SocketDrops(sid) => SuspendDescends(s, sid);
    case ClientLeaves(sid) => StopDescends(s, sid, UserDisconnect);
    case Heartbeat(sid) => HeartbeatDescends(cfg, s, sid);
    case Activity(id) => ActivityDescends(cfg, s, id);
    case LineFails(id) => SessionEndsDescend(s, id);
    case CheckTimeout(sid) =>
      var overdue := if sid in s.active then Overdue(s, s.active[sid]) else None;
      StopDescends(s, sid, if overdue.Some? then overdue.value else NotEnded);
    case CleanUp(id) =>
      StopDescends(s, "", NotEnded);
      SessionEndsDescend(s, id);
    case AdminDisconnect(id) => SessionEndsDescend(s, id);
    case Restart =>
  }

  lemma HeartbeatDescends(cfg: Config, s: Server, sid: Sid)
    requires Consistent(s)
    ensures Descends(s, Step(cfg, s, Heartbeat(sid)))
  {
  }

  lemma ActivityDescends(cfg: Config, s: Server, id: SessionId)
    requires Consistent(s)
    ensures Descends(s, Step(cfg, s, Activity(id)))
  {
  }

  /** Start times account for active time: running for an active bridge, stopped at its suspension for a suspended
      one. */
  ghost predicate ClocksAgree(s: Server, spent: SessionId -> nat) {
    && (forall sid | sid in s.active :: s.clock - s.active[sid].startTime == spent(s.active[sid].session))
    && (forall id | id in s.suspended ::
          s.suspended[id].suspendedAt.Some?
          && s.suspended[id].suspendedAt.value - s.suspended[id].startTime == spent(id))
    && (forall id | id >= s.nextId :: spent(id) == 0)
  }

  ghost function Spent(cfg: Config, clock: int, es: seq<Event>): SessionId -> nat {
    id => ActiveTime(cfg, clock, es, id)
  }

  lemma TickAgrees(s: Server, spent: SessionId -> nat, spent': SessionId -> nat, seconds: nat)
    requires Consistent(s) && ClocksAgree(s, spent)
    requires forall id :: spent'(id) == spent(id) + (if IsActive(s, id) then seconds else 0)
    ensures ClocksAgree(s.(clock := s.clock + seconds), spent')
  {
    forall sid | sid in s.active ensures IsActive(s, s.active[sid].session) {
    }
    forall id | id in s.suspended || id >= s.nextId ensures !IsActive(s, id) {
      assert forall sid | sid in s.active :: Backed(s, s.active[sid]);
    }
  }

  lemma DescentAgrees(s: Server, spent: SessionId -> nat, s': Server)
    requires Consistent(s') && ClocksAgree(s, spent) && Descends(s, s')
    ensures ClocksAgree(s', spent)
  {
    forall sid | sid in s'.active ensures s'.clock - s'.active[sid].startTime == spent(s'.active[sid].session) {
      assert ActiveOrigin(s, s'.active[sid]);
    }
    forall id | id in s'.suspended
      ensures s'.suspended[id].suspendedAt.Some?
      ensures s'.suspended[id].suspendedAt.value - s'.suspended[id].startTime == spent(id)
    {
      assert SuspendedOrigin(s, s'.suspended[id]);
    }
  }

  lemma StepAgrees(cfg: Config, s: Server, e: Event, spent: SessionId -> nat, spent': SessionId -> nat)
    requires Consistent(s) && OneSessionEach(s) && ClocksAgree(s, spent)
    requires forall id :: spent'(id) == spent(id) + (if e.Tick? && IsActive(s, id) then e.seconds else 0)
    ensures ClocksAgree(Step(cfg, s, e), spent')
  {
    if e.Tick? {
      TickAgrees(s, spent, spent', e.seconds);
    } else {
      StepDescends(cfg, s, e);
      StepKeepsConsistency(cfg, s, e);
      DescentAgrees(s, spent, Step(cfg, s, e));
    }
  }

  /** Over every sequence of suspensions and resumptions, now - start_time of an active bridge is exactly the time its
      session has spent active. */
  lemma {:induction false} ActiveTimeIsConserved(cfg: Config, clock: int, es: seq<Event>)
    ensures ClocksAgree(Run(cfg, Initial(clock), es), Spent(cfg, clock, es))
  {
    if es != [] {
      var front, e := es[..|es| - 1], es[|es| - 1];
      ActiveTimeIsConserved(cfg, clock, front);
      ConsistentInEveryRun(cfg, clock, front);
      StepAgrees(cfg, Run(cfg, Initial(clock), front), e, Spent(cfg, clock, front), Spent(cfg, clock, es));
    }
  }

  /** check_timeouts ends a session for its runtime exactly when its active time exceeds the budget. */
  lemma TimeoutExactlyWhenActiveTimeExceeds(cfg: Config, clock: int, es: seq<Event>, sid: Sid)
    requires sid in Run(cfg, Initial(clock), es).active
    ensures var s := Run(cfg, Initial(clock), es);
            var b := s.active[sid];
            Overdue(s, b) == Some(Timeout) <==> ActiveTime(cfg, clock, es, b.session) > b.maxRuntime
  {
    ActiveTimeIsConserved(cfg, clock, es);
    ConsistentInEveryRun(cfg, clock, es);
  }
}
