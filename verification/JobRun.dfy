/** One worker's run of one job: its outcome on every path, and the write loop it uses. */
module JobRun {
  import opened Common
  import JobTable

  datatype Attempt = Works | SerialError | OtherError

  datatype Transfer = Accepted | Refused | FlagSeen | Breaks(how: Attempt)

  /** One turn of the output capture loop. */
  datatype Turn = TimeIsUp | FlagSeen | PortClosed | Received | Idle(tooLong: bool) | Breaks

  /** Everything a run depends on.  The cancellation flag is read at the start, now and then during the transfer, at
      each turn of the capture loop and at the end. */
  datatype Environment = Environment(uploadExists: bool, flaggedAtStart: bool, open: Attempt, preCommands: Attempt,
                                     transfer: Transfer, postCommands: Attempt, capture: seq<Turn>, flaggedAtEnd: bool)

  /** The flag is never taken back, so whoever saw it can rely on the last look seeing it too. */
  predicate FlagIsSticky(e: Environment) {
    e.flaggedAtStart || e.transfer.FlagSeen? || Turn.FlagSeen in e.capture ==> e.flaggedAtEnd
  }

  /** Turns after which the capture loop goes on. */
  predicate GoesOn(t: Turn) {
    t.Received? || t == Idle(false)
  }

  /** The capture loop gets as far as its n-th turn and breaks there. */
  predicate BreaksAt(capture: seq<Turn>, n: nat) {
    n < |capture| && capture[n].Breaks? && forall k | 0 <= k < n :: GoesOn(capture[k])
  }

  ghost predicate NothingBreaks(e: Environment) {
    e.uploadExists && e.open == Works && e.preCommands == Works && e.transfer == Accepted && e.postCommands == Works
    && forall n :: !BreaksAt(e.capture, n)
  }

  /** A look at the flag finds it set, at the start, during the transfer or at the end, before anything has broken. */
  ghost predicate CancellationIsNoticed(e: Environment) {
    e.uploadExists
    && (|| e.flaggedAtStart
        || (e.open == Works && e.preCommands == Works && e.transfer.FlagSeen?)
        || (NothingBreaks(e) && e.flaggedAtEnd))
  }

  /** run_job_on_device.  Whatever happens, the job is left finished: canceled only if somebody asked for it, completed
      only if nothing went wrong and nobody did. */
  method RunJobOnDevice(e: Environment) returns (status: JobTable.Status)
    requires FlagIsSticky(e)
    ensures JobTable.Finished(status)
    ensures status == JobTable.Canceled <==> CancellationIsNoticed(e)
    ensures status == JobTable.Canceled ==> e.flaggedAtEnd
    ensures status == JobTable.Completed <==> NothingBreaks(e) && !e.flaggedAtEnd
  {
    if !e.uploadExists {
      return JobTable.Failed;
    }
    if e.flaggedAtStart {
      return JobTable.Canceled;
    }
    if e.open != Works || e.preCommands != Works {
      return JobTable.Failed;
    }
    match e.transfer {
      case FlagSeen => return JobTable.Canceled;
      case Refused => return JobTable.Failed;
      case Breaks(_) => return JobTable.Failed;
      case Accepted =>
    }
    if e.postCommands != Works {
      return JobTable.Failed;
    }
    var i := 0;
    while i < |e.capture|
      invariant 0 <= i <= |e.capture| && forall k | 0 <= k < i :: GoesOn(e.capture[k])
    {
      match e.capture[i] {
        case TimeIsUp => break;
        case FlagSeen => break;
        case PortClosed => break;
        case Received =>
        case Idle(tooLong) => if tooLong { break; }
        case Breaks =>
          assert BreaksAt(e.capture, i);
          return JobTable.Failed;
      }
      i := i + 1;
    }
    status := if e.flaggedAtEnd then JobTable.Canceled else JobTable.Completed;
  }

  /** How many octets writes take until one takes nothing. */
  function Progress(accepts: seq<nat>): nat {
    if accepts == [] || accepts[0] == 0 then 0 else accepts[0] + Progress(accepts[1..])
  }

  /** _fd_write: `accepts` says how many octets each write takes at most, and the write after the last one raises.  What
      is written is the data, or as much of it as was taken before a write took nothing; the call returns normally
      exactly if that is all of it. */
  method FdWrite(data: bytes, accepts: seq<nat>) returns (written: bytes, total: Option<nat>)
    ensures written == if Progress(accepts) < |data| then data[..Progress(accepts)] else data
    ensures total == if Progress(accepts) < |data| then None else Some(|data|)
  {
    written := [];
    var sent := 0;
    var i := 0;
    while sent < |data|
      invariant 0 <= i <= |accepts| && 0 <= sent <= |data| && written == data[..sent]
      invariant sent < |data| ==> sent + Progress(accepts[i..]) == Progress(accepts)
      invariant sent == |data| ==> Progress(accepts) >= |data|
      decreases |data| - sent
    {
      if i == |accepts| || accepts[i] == 0 {
        return written, None;
      }
      assert accepts[i..][1..] == accepts[i + 1..];
      var n := if accepts[i] <= |data| - sent then accepts[i] else |data| - sent;
      written := written + data[sent..sent + n];
      sent := sent + n;
      i := i + 1;
    }
    total := Some(sent);
  }
}
