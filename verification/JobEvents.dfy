/** The live output stream of a job: an incremental reader of a log that a worker is still writing. */
module JobEvents {
  import opened Common
  import opened JobTable

  /** What one poll finds: the job's status, its log if an output path is set, whether the size and the text can be
      read, and whether the connection has reached its maximum lifetime. */
  datatype Poll = Poll(status: Status, log: Option<bytes>, sizeReadable: bool, textReadable: bool, timedOut: bool)

  datatype Message = StatusChanged(status: Status) | Output(text: bytes) | Done(status: Status, timeout: bool)
                   | Heartbeat

  datatype Stream = Stream(lastStatus: Status, size: nat, sent: seq<Message>, closed: bool)

  function Opened(initial: Status): Stream {
    Stream(initial, 0, [], false)
  }

  function StatusMessages(s: Stream, p: Poll): seq<Message> {
    if p.status != s.lastStatus then [StatusChanged(p.status)] else []
  }

  /** Whether the poll reads past what was already sent. */
  predicate ReadsMore(s: Stream, p: Poll) {
    p.log.Some? && p.sizeReadable && p.textReadable && |p.log.value| > s.size
  }

  function OutputMessages(s: Stream, p: Poll): seq<Message> {
    if ReadsMore(s, p) then [Output(p.log.value[s.size..])] else []
  }

  function ClosingMessage(p: Poll): Message {
    if Finished(p.status) then Done(p.status, false)
    else if p.timedOut then Done(p.status, true)
    else Heartbeat
  }

  function Step(s: Stream, p: Poll): Stream {
    if s.closed then s
    else Stream(p.status, if ReadsMore(s, p) then |p.log.value| else s.size,
                s.sent + StatusMessages(s, p) + OutputMessages(s, p) + [ClosingMessage(p)],
                Finished(p.status) || p.timedOut)
  }

  function Follow(s: Stream, polls: seq<Poll>): Stream {
    if polls == [] then s else Step(Follow(s, polls[..|polls| - 1]), polls[|polls| - 1])
  }

  /** job_events.generate over the polls of one connection. */
  method Generate(initial: Status, polls: seq<Poll>) returns (sent: seq<Message>, closed: bool)
    ensures sent == Follow(Opened(initial), polls).sent && closed == Follow(Opened(initial), polls).closed
  {
    var lastStatus := initial;
    var lastOutputSize := 0;
    sent := [];
    closed := false;
    var n := 0;
    while n < |polls| && !closed
      invariant 0 <= n <= |polls|
      invariant Follow(Opened(initial), polls[..n]) == Stream(lastStatus, lastOutputSize, sent, closed)
    {
      assert polls[..n + 1][..n] == polls[..n];
      ghost var before := Stream(lastStatus, lastOutputSize, sent, false);
      var p := polls[n];
      var ms: seq<Message> := [];
      if p.status != lastStatus {
        lastStatus := p.status;
        ms := [StatusChanged(p.status)];
      }
      assert sent + ms == sent + StatusMessages(before, p);
      sent := sent + ms;
      ms := [];
      if p.log.Some? {
        var currentSize := if p.sizeReadable then |p.log.value| else lastOutputSize;
        if currentSize > lastOutputSize && p.textReadable {
          assert p.log.value[lastOutputSize..currentSize] == p.log.value[before.size..];
          ms := [Output(p.log.value[lastOutputSize..currentSize])];
          lastOutputSize := currentSize;
        }
      }
      assert ms == OutputMessages(before, p);
      sent := sent + ms;
      if Finished(p.status) {
        sent := sent + [Done(p.status, false)];
        closed := true;
      } else if p.timedOut {
        sent := sent + [Done(p.status, true)];
        closed := true;
      } else {
        sent := sent + [Heartbeat];
      }
      n := n + 1;
    }
    if n < |polls| {
      ClosedStays(Opened(initial), polls, n);
    }
    assert polls[..|polls|] == polls;
  }

  lemma {:induction false} ClosedStays(s: Stream, polls: seq<Poll>, n: nat)
    requires n <= |polls| && Follow(s, polls[..n]).closed
    ensures Follow(s, polls) == Follow(s, polls[..n])
  {
    if n < |polls| {
      assert polls[..|polls| - 1][..n] == polls[..n];
      ClosedStays(s, polls[..|polls| - 1], n);
    } else {
      assert polls[..n] == polls;
    }
  }

  // -- What the browser receives ------------------------------------------------------------------------------------

  /** The output text sent so far, joined. */
  function Text(ms: seq<Message>): bytes {
    if ms == [] then [] else (if ms[0].Output? then ms[0].text else []) + Text(ms[1..])
  }

  lemma {:induction false} TextConcat(a: seq<Message>, b: seq<Message>)
    ensures Text(a + b) == Text(a) + Text(b)
  {
    if a == [] {
      assert a + b == b;
    } else {
      assert (a + b)[1..] == a[1..] + b;
      TextConcat(a[1..], b);
    }
  }

  lemma TextStep(s: Stream, p: Poll)
    requires !s.closed
    ensures Text(Step(s, p).sent) == Text(s.sent) + (if ReadsMore(s, p) then p.log.value[s.size..] else [])
  {
    var a, b, c := StatusMessages(s, p), OutputMessages(s, p), [ClosingMessage(p)];
    TextConcat(s.sent + a + b, c);
    TextConcat(s.sent + a, b);
    TextConcat(s.sent, a);
    NoText(a);
    NoText(c);
    assert Text(s.sent + a) == Text(s.sent);
    assert Text(b) == if ReadsMore(s, p) then p.log.value[s.size..] else [] by {
      if ReadsMore(s, p) { TextOne(b[0]); }
    }
  }

  lemma {:induction false} NoText(ms: seq<Message>)
    requires forall m | m in ms :: !m.Output?
    ensures Text(ms) == []
  {
    if ms != [] {
      assert !ms[0].Output?;
      NoText(ms[1..]);
    }
  }

  lemma TextOne(m: Message)
    ensures Text([m]) == if m.Output? then m.text else []
  {
    assert [m][1..] == [];
  }

  /** The log, once there is one, only ever grows at its end. */
  ghost predicate AppendOnly(polls: seq<Poll>) {
    forall i, j | 0 <= i <= j < |polls| && polls[i].log.Some? ::
      polls[j].log.Some? && polls[i].log.value <= polls[j].log.value
  }

  /** The log at the last poll. */
  function LogSoFar(polls: seq<Poll>): bytes {
    if polls == [] || polls[|polls| - 1].log.None? then [] else polls[|polls| - 1].log.value
  }

  lemma LogGrows(polls: seq<Poll>)
    requires polls != [] && AppendOnly(polls)
    ensures AppendOnly(polls[..|polls| - 1]) && LogSoFar(polls[..|polls| - 1]) <= LogSoFar(polls)
  {
    var front := polls[..|polls| - 1];
    if |front| > 0 {
      assert front[|front| - 1] == polls[|polls| - 2];
    }
  }

  /** At every point of every run, what was sent is a prefix of the log: nothing repeated, skipped or reordered. */
  lemma {:induction false} SentIsAPrefixOfTheLog(initial: Status, polls: seq<Poll>)
    requires AppendOnly(polls)
    ensures var s := Follow(Opened(initial), polls);
            Text(s.sent) <= LogSoFar(polls) && |Text(s.sent)| == s.size
  {
    if polls != [] {
      var front, p := polls[..|polls| - 1], polls[|polls| - 1];
      LogGrows(polls);
      SentIsAPrefixOfTheLog(initial, front);
      var s := Follow(Opened(initial), front);
      if !s.closed {
        SentStep(s, p, LogSoFar(front));
      }
    }
  }

  lemma Extended(a: bytes, b: bytes)
    requires a <= b
    ensures a + b[|a|..] == b
  {
  }

  lemma SentStep(s: Stream, p: Poll, log: bytes)
    requires !s.closed && Text(s.sent) <= log && |Text(s.sent)| == s.size
    requires p.log.Some? ==> log <= p.log.value
    requires p.log.None? ==> log == []
    ensures var log' := if p.log.Some? then p.log.value else [];
            Text(Step(s, p).sent) <= log' && |Text(Step(s, p).sent)| == Step(s, p).size
  {
    TextStep(s, p);
    if ReadsMore(s, p) {
      Extended(Text(s.sent), p.log.value);
    } else {
      assert Text(s.sent) + [] == Text(s.sent);
    }
  }

  /** A poll of an open stream, the closing one included, brings it level with the log exactly unless it fails to read
      text that is there. */
  lemma PollCompletesExactlyWhenReadable(initial: Status, polls: seq<Poll>, p: Poll)
    requires AppendOnly(polls + [p]) && !Follow(Opened(initial), polls).closed
    ensures var before := Follow(Opened(initial), polls);
            var after := Follow(Opened(initial), polls + [p]);
            Text(after.sent) == LogSoFar(polls + [p])
            <==> (p.sizeReadable && p.textReadable) || before.size == |LogSoFar(polls + [p])|
  {
    assert (polls + [p])[..|polls|] == polls;
    LogGrows(polls + [p]);
    SentIsAPrefixOfTheLog(initial, polls);
    SentIsAPrefixOfTheLog(initial, polls + [p]);
    TextStep(Follow(Opened(initial), polls), p);
  }

  /** The stream ends with its one "done" message, and that is sent at the first poll that sees a finished job or the
      end of the connection's lifetime. */
  lemma {:induction false} DoneExactlyOnceAndLast(initial: Status, polls: seq<Poll>)
    ensures var s := Follow(Opened(initial), polls);
            && (s.closed <==> exists i | 0 <= i < |polls| :: Finished(polls[i].status) || polls[i].timedOut)
            && (forall k | 0 <= k < |s.sent| :: s.sent[k].Done? <==> s.closed && k == |s.sent| - 1)
            && (s.closed ==> s.sent != [])
  {
    if polls != [] {
      var front := polls[..|polls| - 1];
      DoneExactlyOnceAndLast(initial, front);
      var s, s' := Follow(Opened(initial), front), Follow(Opened(initial), polls);
      var p := polls[|polls| - 1];
      if !s.closed {
        var added := StatusMessages(s, p) + OutputMessages(s, p);
        assert s'.sent == s.sent + added + [ClosingMessage(p)];
        assert forall m | m in added :: !m.Done?;
        forall i | 0 <= i < |front| ensures !(Finished(polls[i].status) || polls[i].timedOut) {
          assert polls[i] == front[i];
        }
      } else {
        var i :| 0 <= i < |front| && (Finished(front[i].status) || front[i].timedOut);
        assert polls[i] == front[i];
      }
    }
  }

  /** The statuses announced, in order. */
  function Announced(ms: seq<Message>): seq<Status> {
    if ms == [] then []
    else (if ms[0].StatusChanged? then [ms[0].status] else []) + Announced(ms[1..])
  }

  /** The statuses seen that differ from the one before, the first compared with `last`. */
  function Changes(last: Status, seen: seq<Status>): seq<Status>
    decreases |seen|
  {
    if seen == [] then [] else (if seen[0] == last then [] else [seen[0]]) + Changes(seen[0], seen[1..])
  }

  lemma {:induction false} AnnouncedConcat(a: seq<Message>, b: seq<Message>)
    ensures Announced(a + b) == Announced(a) + Announced(b)
  {
    if a == [] {
      assert a + b == b;
    } else {
      assert (a + b)[1..] == a[1..] + b;
      AnnouncedConcat(a[1..], b);
    }
  }

  lemma {:induction false} ChangesSnoc(last: Status, seen: seq<Status>, next: Status)
    ensures Changes(last, seen + [next])
         == Changes(last, seen) + (if next == (if seen == [] then last else seen[|seen| - 1]) then [] else [next])
    decreases |seen|
  {
    if seen == [] {
      assert seen + [next] == [next] && [next][1..] == [];
      assert Changes(next, []) == [];
    } else {
      assert (seen + [next])[1..] == seen[1..] + [next] && (seen + [next])[0] == seen[0];
      ChangesSnoc(seen[0], seen[1..], next);
      var first := if seen[0] == last then [] else [seen[0]];
      var added := if next == seen[|seen| - 1] then [] else [next];
      Assoc(first, Changes(seen[0], seen[1..]), added);
    }
  }

  function Seen(polls: seq<Poll>): (ss: seq<Status>)
    ensures |ss| == |polls|
  {
    seq(|polls|, i requires 0 <= i < |polls| => polls[i].status)
  }

  /** While the stream is open, every change of status is announced once, in order, and nothing else is. */
  lemma {:induction false} EveryChangeIsAnnounced(initial: Status, polls: seq<Poll>)
    requires polls == [] || !Follow(Opened(initial), polls[..|polls| - 1]).closed
    ensures var s := Follow(Opened(initial), polls);
            && Announced(s.sent) == Changes(initial, Seen(polls))
            && s.lastStatus == if polls == [] then initial else polls[|polls| - 1].status
  {
    if polls != [] {
      var front, p := polls[..|polls| - 1], polls[|polls| - 1];
      EveryChangeIsAnnounced(initial, front);
      var s := Follow(Opened(initial), front);
      assert Seen(polls) == Seen(front) + [p.status];
      ChangesSnoc(initial, Seen(front), p.status);
      AnnouncedStep(s, p);
    }
  }

  lemma AnnouncedStep(s: Stream, p: Poll)
    requires !s.closed
    ensures Announced(Step(s, p).sent) == Announced(s.sent) + (if p.status == s.lastStatus then [] else [p.status])
  {
    var a, b, c := StatusMessages(s, p), OutputMessages(s, p), [ClosingMessage(p)];
    AnnouncedConcat(s.sent + a + b, c);
    AnnouncedConcat(s.sent + a, b);
    AnnouncedConcat(s.sent, a);
    assert c[1..] == [] && (b != [] ==> b[1..] == []) && (a != [] ==> a[1..] == []);
    assert Announced(b) == [] && Announced(c) == [];
  }

  /** Each poll of an open stream ends with one message: "done" with the status it saw and why, or a heartbeat. */
  lemma EachPollEndsWithOneMessage(s: Stream, p: Poll)
    requires !s.closed
    ensures var sent := Step(s, p).sent;
            && |sent| > |s.sent| && s.sent <= sent
            && sent[|sent| - 1] == (if p.status == Completed || p.status == Failed || p.status == Canceled
                                    then Done(p.status, false)
                                    else if p.timedOut then Done(p.status, true) else Heartbeat)
            && forall i | |s.sent| <= i < |sent| - 1 :: sent[i].StatusChanged? || sent[i].Output?
  {
  }
}
