/** Interactive terminals: bridges in memory, session rows and port leases in the database, and the operations on them.
    One server process runs; each handler is atomic and reads the clock once. */
module Terminal {
  import opened Common

  type Sid = string  // a socket connection
  type SessionId = nat
  type PortId = nat
  type UserId = nat
  type DeviceId = nat

  const GRACE_PERIOD: int := 600
  const LEASE_SECONDS: int := 300

  datatype Reason = NotEnded | UserDisconnect | LeaseExpired | Timeout | IdleTimeout | AdminForce | OpenError
                  | ServerRestart

  /** An open serial connection on behalf of a session. */
  datatype Bridge = Bridge(sid: Option<Sid>, session: SessionId, port: PortId, running: bool, suspendedAt: Option<int>,
                           startTime: int, lastActivity: int, maxRuntime: int, idleTimeout: int)

  datatype Session = Session(user: UserId, device: DeviceId, port: PortId, active: bool, reason: Reason)

  /** At most one per port: the port is the key. */
  datatype Lease = Lease(session: SessionId, expires: int)

  datatype Port = Port(id: PortId, maxRuntime: int, idleTimeout: int)

  datatype Server = Server(clock: int, active: map<Sid, Bridge>, suspended: map<SessionId, Bridge>,
                           sessions: map<SessionId, Session>, leases: map<PortId, Lease>, nextId: SessionId)

  datatype Answer = AlreadyConnected | Resumed(id: SessionId) | AlreadyActive | TooManySessions | AllPortsInUse
                  | CannotOpen | Granted(id: SessionId)

  // -- Session rows and leases --------------------------------------------------------------------------------------

  predicate HasLocalBridge(s: Server, id: SessionId) {
    (exists sid | sid in s.active :: s.active[sid].session == id && s.active[sid].running)
    || (exists k | k in s.suspended :: s.suspended[k].session == id && s.suspended[k].running)
  }

  function EndSession(s: Server, id: SessionId, reason: Reason): Server {
    s.(sessions := if id in s.sessions then s.sessions[id := s.sessions[id].(active := false, reason := reason)]
                   else s.sessions,
       leases := map p | p in s.leases && s.leases[p].session != id :: s.leases[p])
  }

  function ExpiredLeases(s: Server): set<PortId> {
    set p | p in s.leases && s.leases[p].expires < s.clock
  }

  /** Whether recovering these leases ends the session: not while this process drives its bridge. */
  predicate LosesLease(s: Server, ports: set<PortId>, id: SessionId) {
    !HasLocalBridge(s, id) && exists p | p in ports :: p in s.leases && s.leases[p].session == id
  }

  function RecoverPorts(s: Server, ports: set<PortId>): Server {
    s.(sessions := map id | id in s.sessions ::
                     if s.sessions[id].active && LosesLease(s, ports, id)
                     then s.sessions[id].(active := false, reason := LeaseExpired)
                     else s.sessions[id],
       leases := s.leases - ports)
  }

  /** recover_stale_leases */
  function RecoverLeases(s: Server): Server {
    RecoverPorts(s, ExpiredLeases(s))
  }

  /** heartbeat_port_lease: an UPDATE, so a lease that is gone stays gone. */
  function RenewLease(s: Server, id: SessionId): Server {
    s.(leases := map p | p in s.leases ::
                   if s.leases[p].session == id then s.leases[p].(expires := s.clock + LEASE_SECONDS) else s.leases[p])
  }

  function Touch(s: Server, b: Bridge): Bridge {
    b.(lastActivity := s.clock)
  }

  /** handle_heartbeat: the browser's bridge counts as active and its lease is renewed. */
  function HeartbeatFrom(s: Server, sid: Sid): Server {
    if sid !in s.active || !s.active[sid].running then s
    else RenewLease(s.(active := s.active[sid := Touch(s, s.active[sid])]), s.active[sid].session)
  }

  // -- Bridges ------------------------------------------------------------------------------------------------------

  function DropActive(s: Server, sid: Sid): Server {
    s.(active := s.active - {sid})
  }

  function DropSuspended(s: Server, id: SessionId): Server {
    s.(suspended := s.suspended - {id})
  }

  function NewBridge(s: Server, sid: Sid, id: SessionId, port: Port): Bridge {
    Bridge(Some(sid), id, port.id, true, None, s.clock, s.clock,
           if port.maxRuntime != 0 then port.maxRuntime else 3600,
           if port.idleTimeout != 0 then port.idleTimeout else 300)
  }

  function Started(s: Server, sid: Sid, id: SessionId, port: Port): Server {
    s.(active := s.active[sid := NewBridge(s, sid, id, port)])
  }

  function Suspend(s: Server, sid: Sid): Server {
    if sid !in s.active then s
    else
      var b := s.active[sid];
      var waiting := b.(running := true, suspendedAt := Some(s.clock), sid := None);
      DropActive(s, sid).(suspended := s.suspended[b.session := waiting])
  }

  /** The bridge as resumed: the suspended time does not count against the runtime budget. */
  function ResumedBridge(s: Server, b: Bridge, sid: Sid): Bridge {
    b.(sid := Some(sid), lastActivity := s.clock, suspendedAt := None,
       startTime := b.startTime + (if b.suspendedAt.Some? then s.clock - b.suspendedAt.value else 0))
  }

  predicate GraceOver(s: Server, b: Bridge) {
    b.suspendedAt.Some? && s.clock - b.suspendedAt.value > GRACE_PERIOD
  }

  function Resume(s: Server, sid: Sid, id: SessionId): (Server, bool) {
    if id !in s.suspended then (s, false)
    else
      var b := s.suspended[id];
      if GraceOver(s, b) then (EndSession(DropSuspended(s, id), id, UserDisconnect), false)
      else (DropSuspended(s, id).(active := s.active[sid := ResumedBridge(s, b, sid)]), true)
  }

  function Stop(s: Server, sid: Sid, reason: Reason): Server {
    if sid !in s.active then s else EndSession(DropActive(s, sid), s.active[sid].session, reason)
  }

  /** cleanup_suspended, for one entry */
  function DropExpired(s: Server, id: SessionId): Server {
    EndSession(DropSuspended(s, id), id, UserDisconnect)
  }

  /** Why check_timeouts ends a bridge, if it does. */
  function Overdue(s: Server, b: Bridge): Option<Reason> {
    if !b.running then None
    else if s.clock - b.startTime > b.maxRuntime then Some(Timeout)
    else if s.clock - b.lastActivity > b.idleTimeout then Some(IdleTimeout)
    else None
  }

  function SidsOf(s: Server, id: SessionId): set<Sid> {
    set sid | sid in s.active && s.active[sid].session == id
  }

  /** The bridge of a session goes away, its row and lease stay: what the reader thread does when the line fails. */
  function DropBridge(s: Server, id: SessionId): Server {
    if SidsOf(s, id) != {} then s.(active := s.active - SidsOf(s, id)) else DropSuspended(s, id)
  }

  function ForceDisconnect(s: Server, id: SessionId): Server {
    EndSession(DropBridge(s, id), id, AdminForce)
  }

  /** The server starts again: the bridges were in memory, and _cleanup_orphaned_sessions clears rows and leases. */
  function Restarted(s: Server): Server {
    s.(active := map[], suspended := map[],
       sessions := map id | id in s.sessions ::
                     if s.sessions[id].active then s.sessions[id].(active := false, reason := ServerRestart)
                     else s.sessions[id],
       leases := map[])
  }

  // -- A request for a session --------------------------------------------------------------------------------------

  function ActiveSessions(s: Server, user: UserId): set<SessionId> {
    set id | id in s.sessions && s.sessions[id].active && s.sessions[id].user == user
  }

  function SessionsOn(s: Server, user: UserId, device: DeviceId): set<SessionId> {
    set id | id in s.sessions && s.sessions[id].active && s.sessions[id].user == user && s.sessions[id].device == device
  }

  /** The first port in the list without a lease, or the length of the list. */
  function FirstFree(leases: map<PortId, Lease>, ports: seq<Port>): nat {
    if ports == [] || ports[0].id !in leases then 0 else 1 + FirstFree(leases, ports[1..])
  }

  lemma {:induction false} FirstFreeIsFree(leases: map<PortId, Lease>, ports: seq<Port>)
    ensures var i := FirstFree(leases, ports);
            && i <= |ports|
            && (forall k | 0 <= k < i :: ports[k].id in leases)
            && (i < |ports| ==> ports[i].id !in leases)
  {
    if ports != [] && ports[0].id in leases {
      FirstFreeIsFree(leases, ports[1..]);
    }
  }

  lemma {:induction false} FirstFreeUnique(leases: map<PortId, Lease>, ports: seq<Port>, i: nat)
    requires i <= |ports| && (forall k | 0 <= k < i :: ports[k].id in leases)
    requires i < |ports| ==> ports[i].id !in leases
    ensures FirstFree(leases, ports) == i
  {
    if i > 0 {
      FirstFreeUnique(leases, ports[1..], i - 1);
    }
  }

  /** The row, the lease and the fresh id of the session that gets the i-th port; the ids tried before it are spent. */
  function Lend(s: Server, user: UserId, device: DeviceId, ports: seq<Port>, i: nat): Server
    requires i < |ports|
  {
    var id := s.nextId + i;
    s.(sessions := s.sessions[id := Session(user, device, ports[i].id, true, NotEnded)],
       leases := s.leases[ports[i].id := Lease(id, s.clock + LEASE_SECONDS)],
       nextId := id + 1)
  }

  /** Give the first free port to a new session and start its bridge, if the serial line opens. */
  function Place(r: Server, user: UserId, sid: Sid, device: DeviceId, ports: seq<Port>, opens: bool): (Server, Answer) {
    var i := FirstFree(r.leases, ports);
    FirstFreeIsFree(r.leases, ports);
    if i == |ports| then (r.(nextId := r.nextId + i), AllPortsInUse)
    else
      var lent := Lend(r, user, device, ports, i);
      var id := r.nextId + i;
      if opens then (Started(lent, sid, id, ports[i]), Granted(id))
      else (EndSession(lent, id, OpenError), CannotOpen)
  }

  /** Every attempt at a port first recovers lapsed leases. */
  function OpenNew(s: Server, user: UserId, sid: Sid, device: DeviceId, ports: seq<Port>, opens: bool)
    : (Server, Answer)
  {
    Place(if ports == [] then s else RecoverLeases(s), user, sid, device, ports, opens)
  }

  function Admit(s: Server, user: UserId, sid: Sid, device: DeviceId, ports: seq<Port>, limit: int, opens: bool)
    : (Server, Answer)
  {
    if |ActiveSessions(s, user)| >= limit then (s, TooManySessions)
    else OpenNew(s, user, sid, device, ports, opens)
  }

  /** A request by a user who already has session `id` on the device: resume it, or refuse while it is still active; a
      resume past the grace period ends it, and a new one may follow. */
  function Continue(s: Server, user: UserId, sid: Sid, device: DeviceId, ports: seq<Port>, limit: int, opens: bool,
                    id: SessionId): (Server, Answer)
    requires id in s.sessions
  {
    var (s1, resumed) := Resume(s, sid, id);
    if resumed then (s1, Resumed(id))
    else if s1.sessions[id].active then (s1, AlreadyActive)
    else Admit(s1, user, sid, device, ports, limit, opens)
  }

  /** handle_request_session, for an authenticated user and an enabled device with these interactive ports. */
  ghost function Request(s: Server, user: UserId, sid: Sid, device: DeviceId, ports: seq<Port>, limit: int, opens: bool)
    : (Server, Answer)
  {
    if sid in s.active && s.active[sid].running then (s, AlreadyConnected)
    else if SessionsOn(s, user, device) == {} then Admit(s, user, sid, device, ports, limit, opens)
    else
      var id :| id in SessionsOn(s, user, device);
      Continue(s, user, sid, device, ports, limit, opens, id)
  }

  // -- Consistency --------------------------------------------------------------------------------------------------

  ghost predicate BridgesOk(s: Server) {
    && (forall sid | sid in s.active ::
          s.active[sid].sid == Some(sid) && s.active[sid].running && s.active[sid].suspendedAt.None?)
    && (forall id | id in s.suspended ::
          s.suspended[id].session == id && s.suspended[id].sid.None? && s.suspended[id].running
          && s.suspended[id].suspendedAt.Some? && s.suspended[id].suspendedAt.value <= s.clock)
  }

  /** Each session has at most one bridge across both maps. */
  ghost predicate OneBridgeEach(s: Server) {
    && (forall sid, sid' | sid in s.active && sid' in s.active && s.active[sid].session == s.active[sid'].session ::
          sid == sid')
    && (forall sid | sid in s.active :: s.active[sid].session !in s.suspended)
  }

  ghost predicate Backed(s: Server, b: Bridge) {
    b.session in s.sessions && s.sessions[b.session].active && s.sessions[b.session].port == b.port
  }

  /** Every stored bridge belongs to an active session row for its port. */
  ghost predicate AllBacked(s: Server) {
    && (forall sid | sid in s.active :: Backed(s, s.active[sid]))
    && (forall id | id in s.suspended :: Backed(s, s.suspended[id]))
  }

  /** Every lease belongs to an active session row for its port; row ids are never reused. */
  ghost predicate LeasesOk(s: Server) {
    && (forall p | p in s.leases ::
          s.leases[p].session in s.sessions
          && s.sessions[s.leases[p].session].active && s.sessions[s.leases[p].session].port == p)
    && (forall id | id in s.sessions :: id < s.nextId)
  }

  /** At most one active session per user and device. */
  ghost predicate OneSessionEach(s: Server) {
    forall i, j | i in s.sessions && j in s.sessions && s.sessions[i].active && s.sessions[j].active
                  && s.sessions[i].user == s.sessions[j].user && s.sessions[i].device == s.sessions[j].device :: i == j
  }

  /** Bridges, rows and leases agree. */
  ghost predicate Consistent(s: Server) {
    BridgesOk(s) && OneBridgeEach(s) && AllBacked(s) && LeasesOk(s)
  }

  ghost predicate WithinQuota(s: Server, limits: map<UserId, int>) {
    forall u | ActiveSessions(s, u) != {} :: u in limits && |ActiveSessions(s, u)| <= limits[u]
  }

  ghost predicate Holds(s: Server, b: Bridge) {
    b.port in s.leases && s.leases[b.port].session == b.session
  }

  /** Each live bridge's session holds the one lease on the bridge's port. */
  ghost predicate Exclusive(s: Server) {
    && (forall sid | sid in s.active :: Holds(s, s.active[sid]))
    && (forall id | id in s.suspended :: Holds(s, s.suspended[id]))
  }

  ghost predicate Current(s: Server, b: Bridge) {
    Holds(s, b) ==> s.clock <= s.leases[b.port].expires
  }

  /** No live bridge's lease has lapsed. */
  ghost predicate Timely(s: Server) {
    && (forall sid | sid in s.active :: Current(s, s.active[sid]))
    && (forall id | id in s.suspended :: Current(s, s.suspended[id]))
  }

  /** The user's session on a device is unique, so it does not matter which one the query returns first. */
  lemma RequestContinues(s: Server, user: UserId, sid: Sid, device: DeviceId, ports: seq<Port>, limit: int, opens: bool,
                         id: SessionId)
    requires OneSessionEach(s) && id in SessionsOn(s, user, device) && !(sid in s.active && s.active[sid].running)
    ensures Request(s, user, sid, device, ports, limit, opens)
         == Continue(s, user, sid, device, ports, limit, opens, id)
  {
  }

  ghost predicate NoSharedPort(s: Server) {
    && (forall sid, sid' | sid in s.active && sid' in s.active && s.active[sid].port == s.active[sid'].port ::
          sid == sid')
    && (forall id, id' | id in s.suspended && id' in s.suspended && s.suspended[id].port == s.suspended[id'].port ::
          id == id')
    && (forall sid, id | sid in s.active && id in s.suspended :: s.active[sid].port != s.suspended[id].port)
  }

  /** With the leases in place no two live bridges, active or suspended, share a port. */
  lemma ExclusiveMeansNoSharedPort(s: Server)
    requires Consistent(s) && Exclusive(s)
    ensures NoSharedPort(s)
  {
    forall sid, sid' | sid in s.active && sid' in s.active && s.active[sid].port == s.active[sid'].port
      ensures sid == sid'
    {
      assert Holds(s, s.active[sid]) && Holds(s, s.active[sid']);
    }
    forall id, id' | id in s.suspended && id' in s.suspended && s.suspended[id].port == s.suspended[id'].port
      ensures id == id'
    {
      assert Holds(s, s.suspended[id]) && Holds(s, s.suspended[id']);
    }
    forall sid, id | sid in s.active && id in s.suspended ensures s.active[sid].port != s.suspended[id].port {
      assert Holds(s, s.active[sid]) && Holds(s, s.suspended[id]);
    }
  }
}
