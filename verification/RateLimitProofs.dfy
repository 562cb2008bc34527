/** Both rate-limit stores implement the full-history rule; what the rule guarantees; and when the sweep is harmless. */
module RateLimitProofs {
  import opened Common
  import opened RateLimit

  /** The in-memory store after a whole history. */
  function MemoryAfter(lim: Limits, h: History): Table {
    match h
    case Start => map[]
    case Then(past, r) => MemoryCheck(MemoryAfter(lim, past), r, lim(r.key)).0
  }

  /** The clock readings of the sweeps between one request and the next, for the history up to the latter. */
  type Schedule = History -> seq<int>

  /** No sweep reads the clock after the request that follows it. */
  predicate OnTime(h: History, sweeps: Schedule) {
    h.Then? ==> OnTime(h.past, sweeps) && forall i | 0 <= i < |sweeps(h)| :: sweeps(h)[i] <= h.last.now
  }

  function SweepAll(rows: seq<Request>, at: seq<int>): seq<Request>
    decreases |at|
  {
    if at == [] then rows else SweepAll(DeleteOlder(rows, None, at[0] - MAX_AGE), at[1..])
  }

  /** The shared table after a whole history, swept on any schedule. */
  function TableAfter(lim: Limits, h: History, sweeps: Schedule): seq<Request> {
    match h
    case Start => []
    case Then(past, r) => CheckRows(SweepAll(TableAfter(lim, past, sweeps), sweeps(h)), r, lim(r.key)).0
  }

  type Process = nat

  /** One table, and each process's own time of its last sweep. */
  datatype Shared = Shared(rows: seq<Request>, lastSweep: map<Process, int>)

  function View(s: Shared, p: Process): Db {
    Db(s.rows, if p in s.lastSweep then s.lastSweep[p] else 0)
  }

  /** The processes that share the table after a whole history: `who` says which one checks the last request of a
      history, and `fails` whether its sweep fails. */
  function SqliteAfter(lim: Limits, h: History, who: History -> Process, fails: History -> bool): Shared {
    match h
    case Start => Shared([], map[])
    case Then(past, r) =>
      var s := SqliteAfter(lim, past, who, fails);
      var db := SqliteCheck(View(s, who(h)), r, lim(r.key), fails(h)).0;
      Shared(db.rows, s.lastSweep[who(h) := db.lastSweep])
  }

  // -- What the rule guarantees -------------------------------------------------------------------------------------

  /** Widening an interval, or cutting it at the last clock reading, loses no request. */
  lemma {:induction false} AllowedMonotone(lim: Limits, h: History, key: Key, now: int,
                                           lo: int, hi: int, lo': int, hi': int)
    requires ClockedUpTo(h, now) && lo' <= lo && (hi <= hi' || now <= hi')
    ensures Allowed(lim, h, key, lo, hi) <= Allowed(lim, h, key, lo', hi')
  {
    if h.Then? {
      AllowedMonotone(lim, h.past, key, h.last.now, lo, hi, lo', hi');
    }
  }

  /** For every run: no closed interval as long as the window ever holds more than max_req allowed requests of a key,
      wherever the interval starts. */
  lemma {:induction false} NoWindowExceedsLimit(lim: Limits, h: History, key: Key, now: int, t: int)
    requires ClockedUpTo(h, now) && lim(key).maxReq >= 0
    ensures Allowed(lim, h, key, t, t + lim(key).window) <= lim(key).maxReq
  {
    if h.Then? {
      var w := lim(key).window;
      NoWindowExceedsLimit(lim, h.past, key, h.last.now, t);
      if t <= h.last.now <= t + w {
        AllowedMonotone(lim, h.past, key, h.last.now, t, t + w, h.last.now - w, h.last.now);
      }
    }
  }

  /** How many requests of the key were made in the interval, allowed or not. */
  function Made(h: History, key: Key, lo: int, hi: int): nat {
    match h
    case Start => 0
    case Then(past, r) => Made(past, key, lo, hi) + (if r.key == key && lo <= r.now <= hi then 1 else 0)
  }

  lemma {:induction false} AllowedWereMade(lim: Limits, h: History, key: Key, lo: int, hi: int)
    ensures Allowed(lim, h, key, lo, hi) <= Made(h, key, lo, hi)
  {
    if h.Then? {
      AllowedWereMade(lim, h.past, key, lo, hi);
    }
  }

  /** Whoever makes fewer than max_req requests in a window is never refused. */
  lemma FewRequestsAreAllowed(lim: Limits, h: History, r: Request)
    requires Made(h, r.key, r.now - lim(r.key).window, r.now) < lim(r.key).maxReq
    ensures !Denied(lim, h, r)
  {
    AllowedWereMade(lim, h, r.key, r.now - lim(r.key).window, r.now);
  }

  // -- The in-memory store follows the rule -------------------------------------------------------------------------

  function CountIn(ts: seq<int>, lo: int, hi: int): nat {
    if ts == [] then 0 else (if lo <= ts[0] <= hi then 1 else 0) + CountIn(ts[1..], lo, hi)
  }

  lemma {:induction false} CountAppend(ts: seq<int>, t: int, lo: int, hi: int)
    ensures CountIn(ts + [t], lo, hi) == CountIn(ts, lo, hi) + (if lo <= t <= hi then 1 else 0)
  {
    if ts == [] {
      assert CountIn([t], lo, hi) == (if lo <= t <= hi then 1 else 0) + CountIn([], lo, hi);
    } else {
      assert (ts + [t])[1..] == ts[1..] + [t];
      CountAppend(ts[1..], t, lo, hi);
    }
  }

  /** A key's list is in clock order and not ahead of the clock. */
  predicate InOrder(ts: seq<int>, now: int) {
    forall i | 0 <= i < |ts| :: ts[i] <= now && (i > 0 ==> ts[i - 1] <= ts[i])
  }

  lemma {:induction false} InOrderCounts(ts: seq<int>, now: int)
    requires InOrder(ts, now) && ts != []
    ensures CountIn(ts, ts[0], now) == |ts|
  {
    if |ts| > 1 {
      InOrderCounts(ts[1..], now);
      CountLower(ts[1..], ts[0], ts[1], now);
    }
  }

  lemma {:induction false} CountLower(ts: seq<int>, lo: int, lo': int, hi: int)
    requires lo <= lo'
    ensures CountIn(ts, lo', hi) <= CountIn(ts, lo, hi) <= |ts|
  {
    if ts != [] { CountLower(ts[1..], lo, lo', hi); }
  }

  /** Dropping the expired front keeps exactly the entries in the window. */
  lemma {:induction false} DropOldCounts(ts: seq<int>, cutoff: int, lo: int, hi: int)
    requires lo >= cutoff
    ensures CountIn(DropOld(ts, cutoff), lo, hi) == CountIn(ts, lo, hi)
  {
    if ts != [] && ts[0] < cutoff {
      DropOldCounts(ts[1..], cutoff, lo, hi);
    }
  }

  lemma {:induction false} DropOldInOrder(ts: seq<int>, cutoff: int, now: int)
    requires InOrder(ts, now)
    ensures InOrder(DropOld(ts, cutoff), now)
    ensures |DropOld(ts, cutoff)| == CountIn(ts, cutoff, now)
  {
    if ts != [] && ts[0] < cutoff {
      DropOldInOrder(ts[1..], cutoff, now);
    } else if ts != [] {
      InOrderCounts(ts, now);
      CountLower(ts, cutoff, ts[0], now);
    }
  }

  /** The list has forgotten nothing that a window of its key ending at `now` or later could still count. */
  ghost predicate Remembers(lim: Limits, h: History, key: Key, ts: seq<int>, now: int) {
    InOrder(ts, now)
    && forall lo, hi | lo >= now - lim(key).window :: CountIn(ts, lo, hi) == Allowed(lim, h, key, lo, hi)
  }

  lemma ListStep(lim: Limits, h: History, r: Request, ts: seq<int>)
    requires Remembers(lim, h, r.key, ts, r.now)
    ensures var kept := DropOld(ts, r.now - lim(r.key).window);
            && (|kept| >= lim(r.key).maxReq <==> Denied(lim, h, r))
            && Remembers(lim, Then(h, r), r.key, if Denied(lim, h, r) then kept else kept + [r.now], r.now)
  {
    var cutoff := r.now - lim(r.key).window;
    var kept := DropOld(ts, cutoff);
    DropOldInOrder(ts, cutoff, r.now);
    assert |kept| == Allowed(lim, h, r.key, cutoff, r.now);
    var ts' := if Denied(lim, h, r) then kept else kept + [r.now];
    forall lo, hi | lo >= cutoff ensures CountIn(ts', lo, hi) == Allowed(lim, Then(h, r), r.key, lo, hi) {
      DropOldCounts(ts, cutoff, lo, hi);
      CountAppend(kept, r.now, lo, hi);
    }
  }

  lemma OtherListStep(lim: Limits, h: History, r: Request, key: Key, ts: seq<int>)
    requires Remembers(lim, h, key, ts, r.now) && key != r.key
    ensures Remembers(lim, Then(h, r), key, ts, r.now)
  {
    forall lo, hi | lo >= r.now - lim(key).window
      ensures CountIn(ts, lo, hi) == Allowed(lim, Then(h, r), key, lo, hi)
    {
    }
  }

  lemma {:induction false} MemoryRemembers(lim: Limits, h: History, key: Key, now: int)
    requires ClockedUpTo(h, now)
    ensures Remembers(lim, h, key, Get(MemoryAfter(lim, h), key), now)
  {
    if h.Then? {
      var (past, r) := (h.past, h.last);
      MemoryRemembers(lim, past, key, r.now);
      var ts := Get(MemoryAfter(lim, past), key);
      if key == r.key {
        ListStep(lim, past, r, ts);
      } else {
        OtherListStep(lim, past, r, key, ts);
      }
      assert Remembers(lim, h, key, Get(MemoryAfter(lim, h), key), r.now);
    }
  }

  /** On every history with a non-decreasing clock the in-memory store decides as the full history does. */
  lemma MemoryStoreIsExact(lim: Limits, h: History, r: Request)
    requires ClockedUpTo(h, r.now)
    ensures MemoryCheck(MemoryAfter(lim, h), r, lim(r.key)).1 == Denied(lim, h, r)
  {
    MemoryRemembers(lim, h, r.key, r.now);
    ListStep(lim, h, r, Get(MemoryAfter(lim, h), r.key));
  }

  // -- The SQLite store follows the rule ----------------------------------------------------------------------------

  function CountRows(rows: seq<Request>, key: Key, lo: int, hi: int): nat {
    if rows == [] then 0
    else (if rows[0].key == key && lo <= rows[0].now <= hi then 1 else 0) + CountRows(rows[1..], key, lo, hi)
  }

  lemma {:induction false} RowsAppend(rows: seq<Request>, r: Request, key: Key, lo: int, hi: int)
    ensures CountRows(rows + [r], key, lo, hi)
         == CountRows(rows, key, lo, hi) + (if r.key == key && lo <= r.now <= hi then 1 else 0)
  {
    if rows == [] {
      assert [r][1..] == [] && rows + [r] == [r];
    } else {
      assert (rows + [r])[1..] == rows[1..] + [r];
      RowsAppend(rows[1..], r, key, lo, hi);
    }
  }

  predicate RowsUpTo(rows: seq<Request>, now: int) {
    forall i | 0 <= i < |rows| :: rows[i].now <= now
  }

  /** Deleting old rows changes no count of a window that starts at the cutoff or later, or of a spared key. */
  lemma {:induction false} DeleteOlderCounts(rows: seq<Request>, only: Option<Key>, cutoff: int,
                                             key: Key, lo: int, hi: int)
    requires lo >= cutoff || (only.Some? && key != only.value)
    ensures CountRows(DeleteOlder(rows, only, cutoff), key, lo, hi) == CountRows(rows, key, lo, hi)
  {
    if rows != [] {
      DeleteOlderCounts(rows[1..], only, cutoff, key, lo, hi);
      assert ([rows[0]] + DeleteOlder(rows[1..], only, cutoff))[1..] == DeleteOlder(rows[1..], only, cutoff);
    }
  }

  lemma {:induction false} DeleteOlderBounds(rows: seq<Request>, only: Option<Key>, cutoff: int, now: int)
    requires RowsUpTo(rows, now)
    ensures RowsUpTo(DeleteOlder(rows, only, cutoff), now)
    ensures only.Some? ==>
              (var kept := DeleteOlder(rows, only, cutoff);
               CountKey(kept, only.value) == CountRows(kept, only.value, cutoff, now))
  {
    if rows != [] {
      DeleteOlderBounds(rows[1..], only, cutoff, now);
      assert ([rows[0]] + DeleteOlder(rows[1..], only, cutoff))[1..] == DeleteOlder(rows[1..], only, cutoff);
    }
  }

  /** A key whose requests are not all refused anyway. */
  predicate Limited(lim: Limits, key: Key) {
    lim(key).maxReq >= 1
  }

  ghost predicate RowsRemember(lim: Limits, h: History, rows: seq<Request>, now: int) {
    RowsUpTo(rows, now)
    && forall key, lo, hi | Limited(lim, key) && lo >= now - lim(key).window ::
      CountRows(rows, key, lo, hi) == Allowed(lim, h, key, lo, hi)
  }

  /** A deletion that no window reaches is never noticed. */
  lemma DeleteRemembers(lim: Limits, h: History, rows: seq<Request>, only: Option<Key>, cutoff: int, now: int)
    requires RowsRemember(lim, h, rows, now)
    requires forall key | Limited(lim, key) :: cutoff <= now - lim(key).window || (only.Some? && key != only.value)
    ensures RowsRemember(lim, h, DeleteOlder(rows, only, cutoff), now)
  {
    DeleteOlderBounds(rows, only, cutoff, now);
    forall key, lo, hi | Limited(lim, key) && lo >= now - lim(key).window
      ensures CountRows(DeleteOlder(rows, only, cutoff), key, lo, hi) == Allowed(lim, h, key, lo, hi)
    {
      DeleteOlderCounts(rows, only, cutoff, key, lo, hi);
    }
  }

  lemma InsertRemembers(lim: Limits, h: History, rows: seq<Request>, r: Request)
    requires RowsRemember(lim, h, rows, r.now)
    ensures RowsRemember(lim, Then(h, r), if Denied(lim, h, r) then rows else rows + [r], r.now)
  {
    var rows' := if Denied(lim, h, r) then rows else rows + [r];
    forall key, lo, hi | Limited(lim, key) && lo >= r.now - lim(key).window
      ensures CountRows(rows', key, lo, hi) == Allowed(lim, Then(h, r), key, lo, hi)
    {
      RowsAppend(rows, r, key, lo, hi);
    }
  }

  lemma {:induction false} SweepAllRemembers(lim: Limits, h: History, rows: seq<Request>, at: seq<int>, now: int)
    requires RowsRemember(lim, h, rows, now) && SweepIsPatient(lim)
    requires forall i | 0 <= i < |at| :: at[i] <= now
    ensures RowsRemember(lim, h, SweepAll(rows, at), now)
    decreases |at|
  {
    if at != [] {
      DeleteRemembers(lim, h, rows, None, at[0] - MAX_AGE, now);
      SweepAllRemembers(lim, h, DeleteOlder(rows, None, at[0] - MAX_AGE), at[1..], now);
    }
  }

  lemma CheckRowsStep(lim: Limits, h: History, rows: seq<Request>, r: Request)
    requires RowsRemember(lim, h, rows, r.now)
    ensures CheckRows(rows, r, lim(r.key)).1 == Denied(lim, h, r)
    ensures RowsRemember(lim, Then(h, r), CheckRows(rows, r, lim(r.key)).0, r.now)
  {
    var cutoff := r.now - lim(r.key).window;
    DeleteRemembers(lim, h, rows, Some(r.key), cutoff, r.now);
    DeleteOlderBounds(rows, Some(r.key), cutoff, r.now);
    InsertRemembers(lim, h, DeleteOlder(rows, Some(r.key), cutoff), r);
  }

  lemma {:induction false} TableRemembers(lim: Limits, h: History, sweeps: Schedule, now: int)
    requires ClockedUpTo(h, now) && OnTime(h, sweeps) && SweepIsPatient(lim)
    ensures RowsRemember(lim, h, TableAfter(lim, h, sweeps), now)
  {
    if h.Then? {
      TableRemembers(lim, h.past, sweeps, h.last.now);
      SweepAllRemembers(lim, h.past, TableAfter(lim, h.past, sweeps), sweeps(h), h.last.now);
      CheckRowsStep(lim, h.past, SweepAll(TableAfter(lim, h.past, sweeps), sweeps(h)), h.last);
      assert RowsRemember(lim, h, TableAfter(lim, h, sweeps), h.last.now);
    }
  }

  /** Patient sweeps are never noticed, whenever and by whomever they are made. */
  lemma AnyScheduleIsExact(lim: Limits, h: History, sweeps: Schedule, r: Request)
    requires ClockedUpTo(h, r.now) && OnTime(Then(h, r), sweeps) && SweepIsPatient(lim)
    ensures CheckRows(SweepAll(TableAfter(lim, h, sweeps), sweeps(Then(h, r))), r, lim(r.key)).1 == Denied(lim, h, r)
  {
    TableRemembers(lim, h, sweeps, r.now);
    SweepAllRemembers(lim, h, TableAfter(lim, h, sweeps), sweeps(Then(h, r)), r.now);
    CheckRowsStep(lim, h, SweepAll(TableAfter(lim, h, sweeps), sweeps(Then(h, r))), r);
  }

  function SweepBefore(db: Db, now: int, fails: bool): seq<int> {
    if now - db.lastSweep < SWEEP_INTERVAL || fails then [] else [now]
  }

  /** The sweeps that a set of processes makes. */
  function ScheduleOf(lim: Limits, who: History -> Process, fails: History -> bool): Schedule {
    (h: History) =>
      if h.Start? then [] else SweepBefore(View(SqliteAfter(lim, h.past, who, fails), who(h)), h.last.now, fails(h))
  }

  lemma SweepIfDueSweeps(db: Db, now: int, fails: bool)
    ensures SweepIfDue(db, now, fails).rows == SweepAll(db.rows, SweepBefore(db, now, fails))
  {
    var at := SweepBefore(db, now, fails);
    if at != [] {
      assert at[1..] == [];
      assert SweepAll(db.rows, at) == SweepAll(DeleteOlder(db.rows, None, now - MAX_AGE), []);
    }
  }

  /** Any number of processes on one table amount to one of the schedules. */
  lemma {:induction false} ProcessesKeepASchedule(lim: Limits, h: History, who: History -> Process,
                                                  fails: History -> bool)
    ensures SqliteAfter(lim, h, who, fails).rows == TableAfter(lim, h, ScheduleOf(lim, who, fails))
    ensures OnTime(h, ScheduleOf(lim, who, fails))
  {
    if h.Then? {
      ProcessesKeepASchedule(lim, h.past, who, fails);
      SweepIfDueSweeps(View(SqliteAfter(lim, h.past, who, fails), who(h)), h.last.now, fails(h));
    }
  }

  /** A deletion removes exactly the rows of the key, or of all keys, from before the cutoff, with their repetitions. */
  lemma {:induction false} DeletesExactlyTheOld(rows: seq<Request>, only: Option<Key>, cutoff: int, r: Request)
    ensures multiset(DeleteOlder(rows, only, cutoff))[r]
         == if (only == None || only == Some(r.key)) && r.now < cutoff then 0 else multiset(rows)[r]
  {
    if rows != [] {
      DeletesExactlyTheOld(rows[1..], only, cutoff, r);
      assert rows == [rows[0]] + rows[1..];
    }
  }

  /** A process sweeps exactly if its last sweep is at least 300 seconds ago, and then deletes what is over a day old.
      */
  lemma SweepsExactlyWhenDue(db: Db, now: int, fails: bool, r: Request)
    ensures var db' := SweepIfDue(db, now, fails);
            && db'.lastSweep == (if now - db.lastSweep >= 300 then now else db.lastSweep)
            && multiset(db'.rows)[r] == if now - db.lastSweep >= 300 && !fails && r.now < now - 86400 then 0
                                        else multiset(db.rows)[r]
  {
    DeletesExactlyTheOld(db.rows, None, now - MAX_AGE, r);
  }

  /** No window that can allow anything outlasts the sweep age of a day. */
  ghost predicate SweepIsPatient(lim: Limits) {
    forall key | Limited(lim, key) :: lim(key).window <= 86400
  }

  ghost predicate SqliteDecidesRight(lim: Limits, h: History, who: History -> Process, fails: History -> bool,
                                     r: Request)
  {
    var next := Then(h, r);
    ClockedUpTo(h, r.now) ==>
      SqliteCheck(View(SqliteAfter(lim, h, who, fails), who(next)), r, lim(r.key), fails(next)).1 == Denied(lim, h, r)
  }

  /** The processes that share the SQLite table decide as the full history does, on every history with a non-decreasing
      clock, whoever checks which request and whichever sweeps fail, exactly when no effective window is longer than the
      sweep age. */
  lemma SqliteStoreIsExactExactlyWhenPatient(lim: Limits)
    ensures (forall h, who, fails, r :: SqliteDecidesRight(lim, h, who, fails, r)) <==> SweepIsPatient(lim)
  {
    if SweepIsPatient(lim) {
      forall h, who: History -> Process, fails: History -> bool, r ensures SqliteDecidesRight(lim, h, who, fails, r) {
        if ClockedUpTo(h, r.now) {
          ProcessesKeepASchedule(lim, Then(h, r), who, fails);
          ProcessesKeepASchedule(lim, h, who, fails);
          SweepIfDueSweeps(View(SqliteAfter(lim, h, who, fails), who(Then(h, r))), r.now, fails(Then(h, r)));
          AnyScheduleIsExact(lim, h, ScheduleOf(lim, who, fails), r);
        }
      }
    } else {
      var key :| Limited(lim, key) && lim(key).window > MAX_AGE;
      ImpatientSweepForgets(lim, key);
    }
  }

  function Burst(key: Key, n: nat): History {
    if n == 0 then Start else Then(Burst(key, n - 1), Request(key, SWEEP_INTERVAL))
  }

  const LATER: int := SWEEP_INTERVAL + MAX_AGE + 1

  lemma {:induction false} BurstIsAllowed(lim: Limits, key: Key, n: nat, lo: int, hi: int)
    requires Limited(lim, key) && lim(key).window > MAX_AGE && n <= lim(key).maxReq
    requires lo <= SWEEP_INTERVAL <= hi
    ensures Allowed(lim, Burst(key, n), key, lo, hi) == n && ClockedUpTo(Burst(key, n), SWEEP_INTERVAL)
  {
    if n > 0 {
      BurstIsAllowed(lim, key, n - 1, lo, hi);
      BurstIsAllowed(lim, key, n - 1, SWEEP_INTERVAL - lim(key).window, SWEEP_INTERVAL);
    }
  }

  const ONE: History -> Process := _ => 0
  const NEVER: History -> bool := _ => false

  lemma CheckKeepsRowsOld(db: Db, r: Request, l: Limit)
    requires RowsUpTo(db.rows, r.now) && db.lastSweep <= r.now
    ensures var db' := SqliteCheck(db, r, l, false).0; RowsUpTo(db'.rows, r.now) && db'.lastSweep <= r.now
  {
    DeleteOlderBounds(db.rows, None, r.now - MAX_AGE, r.now);
    DeleteOlderBounds(SweepIfDue(db, r.now, false).rows, Some(r.key), r.now - l.window, r.now);
  }

  lemma {:induction false} BurstRowsAreOld(lim: Limits, key: Key, n: nat)
    ensures var db := View(SqliteAfter(lim, Burst(key, n), ONE, NEVER), 0);
            RowsUpTo(db.rows, SWEEP_INTERVAL) && db.lastSweep <= SWEEP_INTERVAL
  {
    if n > 0 {
      BurstRowsAreOld(lim, key, n - 1);
      var db := View(SqliteAfter(lim, Burst(key, n - 1), ONE, NEVER), 0);
      CheckKeepsRowsOld(db, Request(key, SWEEP_INTERVAL), lim(key));
      assert View(SqliteAfter(lim, Burst(key, n), ONE, NEVER), 0)
          == SqliteCheck(db, Request(key, SWEEP_INTERVAL), lim(key), false).0;
    }
  }

  lemma {:induction false} AllOldMeansAllDeleted(rows: seq<Request>, cutoff: int)
    requires RowsUpTo(rows, cutoff - 1)
    ensures DeleteOlder(rows, None, cutoff) == []
  {
    if rows != [] { AllOldMeansAllDeleted(rows[1..], cutoff); }
  }

  /** A full window, then a request just over a day later: the rule refuses it, the swept table does not. */
  lemma ImpatientSweepForgets(lim: Limits, key: Key)
    requires Limited(lim, key) && lim(key).window > MAX_AGE
    ensures !SqliteDecidesRight(lim, Burst(key, lim(key).maxReq), ONE, NEVER, Request(key, LATER))
  {
    var h := Burst(key, lim(key).maxReq);
    BurstIsAllowed(lim, key, lim(key).maxReq, LATER - lim(key).window, LATER);
    BurstRowsAreOld(lim, key, lim(key).maxReq);
    AllOldMeansAllDeleted(SqliteAfter(lim, h, ONE, NEVER).rows, LATER - MAX_AGE);
  }
}
