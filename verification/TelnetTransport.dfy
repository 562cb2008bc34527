/** Opening a telnet port: negotiation first, then the wrapper takes over with the data that arrived meanwhile. */
module TelnetTransport {
  import opened Common
  import Telnet
  import TelnetTokens
  import SocketWrapper

  /** _open_telnet.  If answering a negotiation fails, the data decoded so far is given up. */
  method OpenTelnet(chunks: seq<bytes>, answerFails: bool, script: seq<SocketWrapper.Arrival>)
    returns (w: SocketWrapper.Wrapper)
    ensures fresh(w)
    ensures w.Model() == SocketWrapper.Socket(
                           if answerFails then [] else Telnet.RunChunks(Telnet.START, chunks).out,
                           false, true, script, [])
  {
    var initial: bytes, _ := Telnet.Negotiate(chunks);
    if answerFails {
      initial := [];
    }
    w := new SocketWrapper.Wrapper(initial, script);
  }

  /** End to end: whatever calls follow, the reader gets the data octets of the negotiation phase and then those of the
      socket, each once and in order, exactly when no socket error interrupts a partly served read and no failed answer
      gives up decoded data. */
  lemma NegotiatedDataComesFirst(ts: seq<TelnetTokens.Token>, chunks: seq<bytes>, answerFails: bool,
                                 script: seq<SocketWrapper.Arrival>, calls: seq<SocketWrapper.Call>)
    requires TelnetTokens.AllWellFormed(ts) && Join(chunks) == TelnetTokens.EncodeAll(ts)
    requires forall i | 0 <= i < |chunks| :: chunks[i] != []
    requires forall i | 0 < i < |chunks| :: TelnetTokens.TokenCut(ts, |Join(chunks[..i])|)
    ensures var initial := if answerFails then [] else Telnet.RunChunks(Telnet.START, chunks).out;
            var s := SocketWrapper.Socket(initial, false, true, script, []);
            var (end, replies) := SocketWrapper.Run(s, calls);
            SocketWrapper.AllReturned(replies) + end.buf == TelnetTokens.Payload(ts) + end.received
            <==> SocketWrapper.LossFree(s, calls) && (answerFails ==> TelnetTokens.Payload(ts) == [])
  {
    TelnetTokens.DecodeInvertsEncode(ts, chunks);
    var payload := TelnetTokens.Payload(ts);
    if answerFails && payload != [] {
      var s := SocketWrapper.Socket([], false, true, script, []);
      SocketWrapper.RunNeverCreates(s, calls);
      var (end, replies) := SocketWrapper.Run(s, calls);
      assert |SocketWrapper.AllReturned(replies) + end.buf| < |payload + end.received|;
    } else {
      SocketWrapper.FifoExactlyWhenLossFree(payload, script, calls);
    }
  }
}
