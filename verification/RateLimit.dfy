/** The two sliding-window rate limiters, and the full-history rule both must implement. */
module RateLimit {
  import opened Common

  type Key = string

  datatype Limit = Limit(maxReq: int, window: int)

  /** The limits are fixed for each key, as the configuration fixes them for each endpoint. */
  type Limits = Key -> Limit

  datatype Request = Request(key: Key, now: int)

  // -- The rule, on a history that forgets nothing ------------------------------------------------------------------

  /** Every request checked so far, the latest outermost. */
  datatype History = Start | Then(past: History, last: Request)

  /** How many requests of a key made in [lo, hi] were allowed. */
  function Allowed(lim: Limits, h: History, key: Key, lo: int, hi: int): nat
    decreases h, 0
  {
    match h
    case Start => 0
    case Then(past, r) =>
      Allowed(lim, past, key, lo, hi) + (if r.key == key && lo <= r.now <= hi && !Denied(lim, past, r) then 1 else 0)
  }

  /** The rule: a request is denied when max_req of its key were allowed in [now - window, now]. */
  predicate Denied(lim: Limits, past: History, r: Request)
    decreases past, 1
  {
    Allowed(lim, past, r.key, r.now - lim(r.key).window, r.now) >= lim(r.key).maxReq
  }

  /** The clock never runs backwards, and its last reading was not after `now`. */
  predicate ClockedUpTo(h: History, now: int) {
    h.Then? ==> h.last.now <= now && ClockedUpTo(h.past, h.last.now)
  }

  // -- The in-memory store ------------------------------------------------------------------------------------------

  type Table = map<Key, seq<int>>

  function Get(store: Table, key: Key): seq<int> {
    if key in store then store[key] else []
  }

  function DropOld(ts: seq<int>, cutoff: int): seq<int> {
    if ts != [] && ts[0] < cutoff then DropOld(ts[1..], cutoff) else ts
  }

  function MemoryCheck(store: Table, r: Request, l: Limit): (Table, bool) {
    var ts := DropOld(Get(store, r.key), r.now - l.window);
    if |ts| >= l.maxReq then (if r.key in store then store[r.key := ts] else store, true)
    else (store[r.key := ts + [r.now]], false)
  }

  class MemoryStore {
    var store: Table

    constructor ()
      ensures store == map[]
    {
      store := map[];
    }

    /** Returns true when the request must be refused. */
    method Check(r: Request, l: Limit) returns (limited: bool)
      modifies this
      ensures (store, limited) == MemoryCheck(old(store), r, l)
    {
      var timestamps := if r.key in store then store[r.key] else [];
      var cutoff := r.now - l.window;
      while timestamps != [] && timestamps[0] < cutoff
        invariant DropOld(timestamps, cutoff) == DropOld(Get(store, r.key), cutoff)
        decreases |timestamps|
      {
        timestamps := timestamps[1..];
      }
      if r.key in store {
        store := store[r.key := timestamps];  // the list is shared with the store
      }
      if |timestamps| >= l.maxReq {
        return true;
      }
      assert store[r.key := timestamps + [r.now]] == old(store)[r.key := timestamps + [r.now]];
      store := store[r.key := timestamps + [r.now]];
      limited := false;
    }
  }

  // -- The SQLite store ---------------------------------------------------------------------------------------------

  const MAX_AGE: int := 24 * 3600
  const SWEEP_INTERVAL: int := 300

  datatype Db = Db(rows: seq<Request>, lastSweep: int)

  /** SELECT COUNT(*) ... WHERE key = ? */
  function CountKey(rows: seq<Request>, key: Key): nat {
    if rows == [] then 0 else (if rows[0].key == key then 1 else 0) + CountKey(rows[1..], key)
  }

  /** DELETE ... WHERE timestamp < cutoff, for one key or for all. */
  function DeleteOlder(rows: seq<Request>, only: Option<Key>, cutoff: int): seq<Request> {
    if rows == [] then []
    else if (only.None? || rows[0].key == only.value) && rows[0].now < cutoff then DeleteOlder(rows[1..], only, cutoff)
    else [rows[0]] + DeleteOlder(rows[1..], only, cutoff)
  }

  function SweepIfDue(db: Db, now: int, fails: bool): Db {
    if now - db.lastSweep < SWEEP_INTERVAL then db
    else Db(if fails then db.rows else DeleteOlder(db.rows, None, now - MAX_AGE), now)
  }

  /** The transaction on the table: prune the key, count, insert unless refused. */
  function CheckRows(rows: seq<Request>, r: Request, l: Limit): (seq<Request>, bool) {
    var kept := DeleteOlder(rows, Some(r.key), r.now - l.window);
    if CountKey(kept, r.key) >= l.maxReq then (kept, true) else (kept + [r], false)
  }

  function SqliteCheck(db: Db, r: Request, l: Limit, sweepFails: bool): (Db, bool) {
    var swept := SweepIfDue(db, r.now, sweepFails);
    var (rows, limited) := CheckRows(swept.rows, r, l);
    (swept.(rows := rows), limited)
  }

  class SqliteStore {
    var rows: seq<Request>
    var lastSweep: int

    constructor ()
      ensures Contents() == Db([], 0)
    {
      rows := [];
      lastSweep := 0;
    }

    function Contents(): Db
      reads this
    {
      Db(rows, lastSweep)
    }

    /** The global sweep; a failed one is only retried after another interval. */
    method Sweep(now: int, fails: bool)
      modifies this
      ensures Contents() == SweepIfDue(old(Contents()), now, fails)
    {
      if now - lastSweep < SWEEP_INTERVAL {
        return;
      }
      lastSweep := now;
      if !fails {
        rows := DeleteOlder(rows, None, now - MAX_AGE);
      }
    }

    method Check(r: Request, l: Limit, sweepFails: bool) returns (limited: bool)
      modifies this
      ensures (Contents(), limited) == SqliteCheck(old(Contents()), r, l, sweepFails)
    {
      Sweep(r.now, sweepFails);
      rows := DeleteOlder(rows, Some(r.key), r.now - l.window);
      if CountKey(rows, r.key) >= l.maxReq {
        return true;
      }
      rows := rows + [r];
      limited := false;
    }
  }
}
