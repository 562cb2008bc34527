/** The buffered socket wrapper handed to serial-port callers, over an arbitrary script of socket readiness. */
module SocketWrapper {
  import opened Common

  /** What select and recv find: nothing ready, a spurious wake-up, a socket error, or octets (none: peer closed). */
  datatype Arrival = NotReady | WouldBlock | Failed | Octets(data: bytes)

  /** The wrapper with what its socket will still deliver and has delivered so far. */
  datatype Socket = Socket(buf: bytes, eof: bool, isOpen: bool, script: seq<Arrival>, received: bytes)

  datatype Call = InWaiting | Read(size: nat) | Write(succeeds: bool)

  datatype Reply = Count(n: nat) | Data(data: bytes) | Written | Closed

  /** recv(n): at most n octets; the rest of an arrival stays in the kernel. */
  function Recv(script: seq<Arrival>, n: nat): (bytes, seq<Arrival>)
    requires script != [] && script[0].Octets?
  {
    var d := script[0].data;
    if |d| <= n then (d, script[1..]) else (d[..n], [Octets(d[n..])] + script[1..])
  }

  const RECV_SIZE: nat := 4096

  class Wrapper {
    var buf: bytes
    var eof: bool
    var isOpen: bool
    var script: seq<Arrival>
    ghost var received: bytes

    ghost function Model(): Socket
      reads this
    {
      Socket(buf, eof, isOpen, script, received)
    }

    /** The wrapper starts with what telnet negotiation left over (nothing for plain TCP). */
    constructor (initial: bytes, script: seq<Arrival>)
      ensures Model() == Socket(initial, false, true, script, [])
    {
      this.buf := initial;
      this.eof := false;
      this.isOpen := true;
      this.script := script;
      this.received := [];
    }

    method RaiseClosed() returns (r: Reply)
      modifies this
      ensures r == Closed && Model() == old(Model()).(eof := true, isOpen := false)
    {
      eof := true;
      isOpen := false;
      r := Closed;
    }

    method InWaiting() returns (r: Reply)
      modifies this
      ensures Perform(old(Model()), Call.InWaiting) == (Model(), r)
    {
      if buf != [] {
        return Count(|buf|);
      }
      if eof {
        r := RaiseClosed();
        return;
      }
      if script == [] {
        return Count(0);
      }
      match script[0] {
        case NotReady =>
          script := script[1..];
          r := Count(0);
        case WouldBlock =>
          script := script[1..];
          r := Count(0);
        case Failed =>
          script := script[1..];
          r := RaiseClosed();
        case Octets(_) =>
          var (chunk, rest) := Recv(script, RECV_SIZE);
          script := rest;
          received := received + chunk;
          if chunk != [] {
            assert buf + chunk == chunk;
            buf := buf + chunk;
            r := Count(|buf|);
          } else {
            r := RaiseClosed();
          }
      }
    }

    method Read(size: nat) returns (r: Reply)
      modifies this
      ensures Perform(old(Model()), Call.Read(size)) == (Model(), r)
    {
      if eof {
        r := RaiseClosed();
        return;
      }
      var data: bytes := [];
      var want := size;
      if buf != [] {
        data := if |buf| >= size then buf[..size] else buf;
        buf := buf[|data|..];
        if |data| >= size {
          return Data(data);
        }
        want := size - |data|;
      }
      assert buf == [] && data == old(buf) && want == size - |data|;
      if script == [] {
        return Data(data);
      }
      match script[0] {
        case NotReady =>
          script := script[1..];
          r := Data(data);
        case WouldBlock =>
          script := script[1..];
          r := Data(data);
        case Failed =>
          script := script[1..];
          r := RaiseClosed();
        case Octets(_) =>
          var (chunk, rest) := Recv(script, want);
          script := rest;
          received := received + chunk;
          if chunk != [] {
            r := Data(data + chunk);
          } else if data != [] {
            eof := true;
            r := Data(data);
          } else {
            r := RaiseClosed();
          }
      }
    }

    method Write(succeeds: bool) returns (r: Reply)
      modifies this
      ensures Perform(old(Model()), Call.Write(succeeds)) == (Model(), r)
    {
      if eof {
        r := RaiseClosed();
      } else if succeeds {
        r := Written;
      } else {
        r := RaiseClosed();
      }
    }
  }

  // -- The calls as transitions on the model ------------------------------------------------------------------------

  function CloseSocket(s: Socket): (Socket, Reply) {
    (s.(eof := true, isOpen := false), Closed)
  }

  /** What one recv(n) yields, and the socket afterwards. */
  function Receive(s: Socket, n: nat): (bytes, Socket)
    requires s.script != [] && s.script[0].Octets?
  {
    var (chunk, rest) := Recv(s.script, n);
    (chunk, s.(script := rest, received := s.received + chunk))
  }

  function Perform(s: Socket, call: Call): (Socket, Reply) {
    match call
    case InWaiting =>
      if s.buf != [] then (s, Count(|s.buf|))
      else if s.eof then CloseSocket(s)
      else if s.script == [] then (s, Count(0))
      else (match s.script[0]
            case Failed => CloseSocket(s.(script := s.script[1..]))
            case Octets(_) =>
              var (chunk, s') := Receive(s, RECV_SIZE);
              if chunk == [] then CloseSocket(s') else (s'.(buf := chunk), Count(|chunk|))
            case _ => (s.(script := s.script[1..]), Count(0)))
    case Read(size) =>
      if s.eof then CloseSocket(s)
      else if s.buf != [] && |s.buf| >= size then (s.(buf := s.buf[size..]), Data(s.buf[..size]))
      else if s.script == [] then (s.(buf := []), Data(s.buf))
      else (match s.script[0]
            case Failed => CloseSocket(s.(buf := [], script := s.script[1..]))
            case Octets(_) =>
              var (chunk, s') := Receive(s.(buf := []), size - |s.buf|);
              if chunk != [] then (s', Data(s.buf + chunk))
              else if s.buf != [] then (s'.(eof := true), Data(s.buf))
              else CloseSocket(s')
            case _ => (s.(buf := [], script := s.script[1..]), Data(s.buf)))
    case Write(succeeds) =>
      if s.eof || !succeeds then CloseSocket(s) else (s, Written)
  }

  function Returned(r: Reply): bytes {
    if r.Data? then r.data else []
  }

  /** A socket error during a read that had already taken octets out of the buffer: they are dropped. */
  predicate Loses(s: Socket, call: Call) {
    call.Read? && !s.eof && 0 < |s.buf| < call.size && s.script != [] && s.script[0].Failed?
  }

  /** One call neither loses, repeats nor reorders an octet, except in the one case named above. */
  lemma StepConserves(s: Socket, call: Call)
    ensures var (s', r) := Perform(s, call);
            && s.received <= s'.received
            && (!Loses(s, call) ==> Returned(r) + s'.buf == s.buf + s'.received[|s.received|..])
            && (Loses(s, call) ==> s'.buf == [] && Returned(r) == [] && s'.received == s.received && s.buf != [])
  {
    var (s', r) := Perform(s, call);
    if !Loses(s, call) {
      if call.Read? && s.buf != [] && |s.buf| >= call.size && !s.eof {
        assert s.buf == s.buf[..call.size] + s.buf[call.size..];
      }
    }
  }

  /** A read that can be served from the buffer is served from it, in order, and does not touch the socket. */
  lemma ReadServesTheBuffer(s: Socket, size: nat)
    requires !s.eof && s.buf != [] && size <= |s.buf|
    ensures Perform(s, Read(size))
         == (Socket(s.buf[size..], false, s.isOpen, s.script, s.received), Data(s.buf[..size]))
  {
  }

  /** Any other read takes the whole buffer and asks the socket once for what is missing: it returns the buffer
      followed by the next octets of the socket, however few; it fails exactly if the socket does, or ends with
      nothing in hand. */
  lemma ReadAsksTheSocketOnce(s: Socket, size: nat)
    requires !s.eof && (s.buf == [] || |s.buf| < size)
    ensures var (s', r) := Perform(s, Read(size));
            && s'.buf == []
            && (s.script == [] || s.script[0].NotReady? || s.script[0].WouldBlock? ==>
                  r == Data(s.buf) && s'.received == s.received && !s'.eof && s'.isOpen == s.isOpen)
            && (s.script != [] && s.script[0].Failed? ==> r == Closed && s'.eof && !s'.isOpen)
            && (s.script != [] && s.script[0].Octets? ==>
                  var d, missing := s.script[0].data, size - |s.buf|;
                  var got := if |d| <= missing then d else d[..missing];
                  && s'.received == s.received + got
                  && (got != [] || s.buf != [] ==> r == Data(s.buf + got) && (s'.eof <==> got == []))
                  && (got == [] && s.buf == [] ==> r == Closed && s'.eof && !s'.isOpen)
                  && s'.script == (if |d| <= missing then s.script[1..] else [Octets(d[missing..])] + s.script[1..]))
            && (s.script != [] && !s.script[0].Octets? ==> s'.script == s.script[1..])
  {
    assert s.buf + [] == s.buf;
  }

  /** in_waiting reports exactly what is in the buffer afterwards; it receives only into an empty one, and reports the
      end exactly if that was noted, or the socket fails or ends, with nothing in hand. */
  lemma InWaitingCountsTheBuffer(s: Socket)
    ensures var (s', r) := Perform(s, InWaiting);
            && (s.buf != [] ==> (s', r) == (s, Count(|s.buf|)))
            && (r != Closed ==> r == Count(|s'.buf|) && s'.eof == s.eof && s'.isOpen == s.isOpen)
            && (s.buf == [] && !s.eof && s.script != [] && s.script[0].Octets? && s.script[0].data != [] ==>
                  var d := s.script[0].data; r != Closed && s'.buf == if |d| <= 4096 then d else d[..4096])
            && (r == Closed <==>
                  s.buf == [] && (s.eof || (s.script != [] && (s.script[0].Failed? || s.script[0] == Octets([])))))
            && (r == Closed ==> s'.eof && !s'.isOpen && s'.buf == [])
  {
  }

  /** After the end is noted, every read and write is refused and changes nothing but the open flag. */
  lemma EofRefusesAll(s: Socket, size: nat, succeeds: bool)
    requires s.eof
    ensures Perform(s, Read(size)) == (s.(isOpen := false), Closed)
    ensures Perform(s, Write(succeeds)) == (s.(isOpen := false), Closed)
  {
  }

  /** A write goes through unchanged, or closes the wrapper. */
  lemma WriteKeepsTheBuffer(s: Socket, succeeds: bool)
    requires !s.eof
    ensures Perform(s, Write(succeeds)) == if succeeds then (s, Written) else (s.(eof := true, isOpen := false), Closed)
  {
  }

  /** No read returns more than it was asked for. */
  lemma ReadIsBounded(s: Socket, size: nat)
    ensures |Returned(Perform(s, Read(size)).1)| <= size
  {
  }

  // -- Whole runs ---------------------------------------------------------------------------------------------------

  function Run(s: Socket, calls: seq<Call>): (Socket, seq<Reply>)
    decreases |calls|
  {
    if calls == [] then (s, [])
    else
      var (s', r) := Perform(s, calls[0]);
      var (end, rs) := Run(s', calls[1..]);
      (end, [r] + rs)
  }

  function AllReturned(rs: seq<Reply>): bytes {
    if rs == [] then [] else Returned(rs[0]) + AllReturned(rs[1..])
  }

  ghost predicate LossFree(s: Socket, calls: seq<Call>)
    decreases |calls|
  {
    calls == [] || (!Loses(s, calls[0]) && LossFree(Perform(s, calls[0]).0, calls[1..]))
  }

  lemma {:induction false} RunNeverCreates(s: Socket, calls: seq<Call>)
    ensures var (end, rs) := Run(s, calls);
            && s.received <= end.received
            && |AllReturned(rs)| + |end.buf| <= |s.buf| + |end.received| - |s.received|
            && (!LossFree(s, calls) ==>
                  |AllReturned(rs)| + |end.buf| < |s.buf| + |end.received| - |s.received|)
    decreases |calls|
  {
    if calls != [] {
      StepConserves(s, calls[0]);
      var (s', r) := Perform(s, calls[0]);
      RunNeverCreates(s', calls[1..]);
      var (end, rs) := Run(s', calls[1..]);
      assert ([r] + rs)[1..] == rs;
      assert |Returned(r) + s'.buf| == |Returned(r)| + |s'.buf|;
    }
  }

  lemma Chain(r: bytes, mid: bytes, start: bytes, new1: bytes, rs: bytes, end: bytes, new2: bytes)
    requires r + mid == start + new1 && rs + end == mid + new2
    ensures (r + rs) + end == start + (new1 + new2)
  {
    Assoc(r, rs, end);
    Assoc(r, mid, new2);
    Assoc(start, new1, new2);
  }

  lemma Grown(a: bytes, b: bytes, c: bytes)
    requires a <= b <= c
    ensures c[|a|..] == b[|a|..] + c[|b|..]
  {
  }

  lemma {:induction false} LossFreeRunIsFifo(s: Socket, calls: seq<Call>)
    requires LossFree(s, calls)
    ensures var (end, rs) := Run(s, calls);
            && s.received <= end.received
            && AllReturned(rs) + end.buf == s.buf + end.received[|s.received|..]
    decreases |calls|
  {
    if calls != [] {
      StepConserves(s, calls[0]);
      var (s', r) := Perform(s, calls[0]);
      LossFreeRunIsFifo(s', calls[1..]);
      var (end, rs) := Run(s', calls[1..]);
      assert ([r] + rs)[1..] == rs;
      var new1, new2 := s'.received[|s.received|..], end.received[|s'.received|..];
      Grown(s.received, s'.received, end.received);
      Chain(Returned(r), s'.buf, s.buf, new1, AllReturned(rs), end.buf, new2);
    } else {
      assert AllReturned([]) + s.buf == s.buf + [];
    }
  }

  /** First in, first out, for every run: what was returned followed by what is buffered is what the wrapper started
      with followed by what it received, exactly when no read met a socket error with octets in hand. */
  lemma FifoExactlyWhenLossFree(initial: bytes, script: seq<Arrival>, calls: seq<Call>)
    ensures var s := Socket(initial, false, true, script, []);
            var (end, rs) := Run(s, calls);
            AllReturned(rs) + end.buf == initial + end.received <==> LossFree(s, calls)
  {
    var s := Socket(initial, false, true, script, []);
    RunNeverCreates(s, calls);
    if LossFree(s, calls) {
      LossFreeRunIsFifo(s, calls);
    } else {
      var (end, rs) := Run(s, calls);
      assert |AllReturned(rs) + end.buf| < |initial + end.received|;
    }
  }

  /** An octet that was handed over by negotiation and is lost: the read that takes it also asks the failing socket. */
  lemma ErrorDropsTheBuffer()
    ensures var (end, rs) := Run(Socket([65], false, true, [Failed], []), [Read(2)]);
            rs == [Closed] && end.buf == [] && end.received == [] && AllReturned(rs) == []
  {
    var s := Socket([65], false, true, [Failed], []);
    var calls := [Read(2)];
    assert calls[1..] == [];
    assert Run(s, calls).1 == [Closed] + [];
  }

  /** A write fails while octets are buffered: they are out of reach from then on. */
  predicate Strands(s: Socket, call: Call) {
    call == Write(false) && !s.eof && s.buf != []
  }

  ghost predicate StrandFree(s: Socket, calls: seq<Call>)
    decreases |calls|
  {
    calls == [] || (!Strands(s, calls[0]) && StrandFree(Perform(s, calls[0]).0, calls[1..]))
  }

  /** Once the end is noted, nothing changes any more. */
  lemma {:induction false} EofStays(s: Socket, calls: seq<Call>)
    requires s.eof
    ensures Run(s, calls).0.eof && Run(s, calls).0.buf == s.buf && StrandFree(s, calls)
    decreases |calls|
  {
    if calls != [] {
      EofStays(Perform(s, calls[0]).0, calls[1..]);
    }
  }

  /** The end is noted with an empty buffer exactly if no write failed with octets in it. */
  lemma {:induction false} EofMeansDrainedExactlyWhenStrandFree(s: Socket, calls: seq<Call>)
    requires !s.eof
    ensures Run(s, calls).0.eof ==> (Run(s, calls).0.buf == [] <==> StrandFree(s, calls))
    decreases |calls|
  {
    if calls != [] {
      var s' := Perform(s, calls[0]).0;
      if s'.eof {
        EofStays(s', calls[1..]);
        assert s'.buf == [] <==> !Strands(s, calls[0]);
      } else {
        EofMeansDrainedExactlyWhenStrandFree(s', calls[1..]);
      }
    }
  }

  lemma {:induction false} ClosedMeansEof(s: Socket, calls: seq<Call>)
    requires var rs := Run(s, calls).1; rs != [] && rs[|rs| - 1] == Closed
    ensures Run(s, calls).0.eof
    decreases |calls|
  {
    var s' := Perform(s, calls[0]).0;
    if |calls| > 1 {
      ClosedMeansEof(s', calls[1..]);
    } else {
      assert calls[1..] == [];
      assert Run(s', calls[1..]) == (s', []);
    }
  }

  /** When "connection closed" is reported, every octet ever received was handed over exactly if no read was cut short
      by an error, and no write failed, with octets in the buffer. */
  lemma ClosedMeansDrainedExactlyWhen(initial: bytes, script: seq<Arrival>, calls: seq<Call>)
    requires var rs := Run(Socket(initial, false, true, script, []), calls).1; rs != [] && rs[|rs| - 1] == Closed
    ensures var s := Socket(initial, false, true, script, []);
            var (end, rs) := Run(s, calls);
            AllReturned(rs) == initial + end.received <==> LossFree(s, calls) && StrandFree(s, calls)
  {
    var s := Socket(initial, false, true, script, []);
    var (end, rs) := Run(s, calls);
    ClosedMeansEof(s, calls);
    EofMeansDrainedExactlyWhenStrandFree(s, calls);
    RunNeverCreates(s, calls);
    if LossFree(s, calls) {
      FifoExactlyWhenLossFree(initial, script, calls);
      assert |AllReturned(rs) + end.buf| == |initial + end.received|;
      assert AllReturned(rs) + [] == AllReturned(rs);
    }
  }

  /** After a failed write the buffered octets are out of reach: every later read reports the closed connection. */
  lemma FailedWriteStrandsBuffer(s: Socket, size: nat)
    ensures var s' := Perform(s, Write(false)).0;
            s'.buf == s.buf && Perform(s', Read(size)) == (s', Closed)
  {
  }
}
