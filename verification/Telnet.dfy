/** The chunk-fed telnet negotiation decoder (RFC 854 commands, RFC 855 subnegotiation). */
module Telnet {
  import opened Common

  const IAC: byte := 255
  const DONT: byte := 254
  const DO: byte := 253
  const WONT: byte := 252
  const WILL: byte := 251
  const SB: byte := 250
  const SE: byte := 240

  predicate IsOption(b: byte) {
    b == WILL || b == WONT || b == DO || b == DONT
  }

  /** WILL is answered DONT and DO is answered WONT; WONT and DONT need no answer. */
  function Refusal(cmd: byte, opt: byte): seq<bytes> {
    if cmd == WILL then [[IAC, DONT, opt]]
    else if cmd == DO then [[IAC, WONT, opt]]
    else []
  }

  // -- A byte-at-a-time reference decoder: where one stands in a command never depends on chunking ----------------

  datatype State = Normal | SawIac | SawOption(cmd: byte) | InSub | InSubIac

  datatype Config = Config(state: State, out: bytes, replies: seq<bytes>)

  const START := Config(Normal, [], [])

  function Feed1(c: Config, b: byte): Config {
    match c.state
    case Normal => if b == IAC then c.(state := SawIac) else c.(out := c.out + [b])
    case SawIac =>
      if b == IAC then Config(Normal, c.out + [IAC], c.replies)
      else if IsOption(b) then c.(state := SawOption(b))
      else if b == SB then c.(state := InSub)
      else c.(state := Normal)
    case SawOption(cmd) => Config(Normal, c.out, c.replies + Refusal(cmd, b))
    case InSub => if b == IAC then c.(state := InSubIac) else c
    case InSubIac => if b == SE then c.(state := Normal) else if b == IAC then c else c.(state := InSub)
  }

  function Feed(c: Config, s: bytes): Config
    decreases |s|
  {
    if s == [] then c else Feed(Feed1(c, s[0]), s[1..])
  }

  /** What the end of a received chunk does: only a lone IAC is remembered; a missing option byte counts as option 0
      and an unfinished subnegotiation is forgotten. */
  function EndChunk(c: Config): Config {
    match c.state
    case SawOption(cmd) => Config(Normal, c.out, c.replies + Refusal(cmd, 0))
    case InSub => c.(state := Normal)
    case InSubIac => c.(state := Normal)
    case _ => c
  }

  /** The received chunks in turn; an empty one is the end of the stream. */
  function RunChunks(c: Config, chunks: seq<bytes>): Config
    decreases |chunks|
  {
    if chunks == [] || chunks[0] == [] then c
    else RunChunks(EndChunk(Feed(c, chunks[0])), chunks[1..])
  }

  lemma {:induction false} FeedConcat(c: Config, a: bytes, b: bytes)
    ensures Feed(c, a + b) == Feed(Feed(c, a), b)
    decreases |a|
  {
    if a == [] {
      assert a + b == b;
    } else {
      assert (a + b)[1..] == a[1..] + b;
      FeedConcat(Feed1(c, a[0]), a[1..], b);
    }
  }

  // -- The decoder of the source ------------------------------------------------------------------------------------

  function Rest(data: bytes, i: nat): bytes {
    if i <= |data| then data[i..] else []
  }

  /** Scanning a subnegotiation for IAC SE may restart at every byte: an IAC not followed by SE changes nothing. */
  lemma SubScanStep(c: Config, s: bytes)
    requires c.state.InSub? && s != [] && !(s[0] == IAC && |s| > 1 && s[1] == SE)
    ensures EndChunk(Feed(c, s)) == EndChunk(Feed(c, s[1..]))
  {
    if s[0] == IAC && |s| > 1 {
      var pending := c.(state := InSubIac);
      assert Feed(c, s) == Feed(Feed1(pending, s[1]), s[2..]) by {
        assert s[1..][1..] == s[2..];
      }
      assert Feed1(pending, s[1]) == Feed1(c, s[1]);
    }
  }

  lemma FeedStep(c: Config, data: bytes, i: nat)
    requires i < |data|
    ensures Feed(c, data[i..]) == Feed(Feed1(c, data[i]), Rest(data, i + 1))
  {
    assert data[i..][1..] == Rest(data, i + 1);
  }

  /** What the byte after an IAC leads to; a missing option byte reads as 0. */
  lemma CommandStep(c: Config, data: bytes, i: nat)
    requires c.state.SawIac? && i < |data|
    ensures data[i] == IAC ==> Feed(c, data[i..]) == Feed(Config(Normal, c.out + [IAC], c.replies), Rest(data, i + 1))
    ensures IsOption(data[i]) ==>
              var opt := if i + 1 < |data| then data[i + 1] else 0;
              EndChunk(Feed(c, data[i..]))
              == EndChunk(Feed(Config(Normal, c.out, c.replies + Refusal(data[i], opt)), Rest(data, i + 2)))
    ensures data[i] == SB ==> Feed(c, data[i..]) == Feed(c.(state := InSub), Rest(data, i + 1))
    ensures data[i] != IAC && !IsOption(data[i]) && data[i] != SB ==>
              Feed(c, data[i..]) == Feed(c.(state := Normal), Rest(data, i + 1))
  {
    FeedStep(c, data, i);
    if IsOption(data[i]) && i + 1 < |data| {
      FeedStep(Feed1(c, data[i]), data, i + 1);
    }
  }

  /** The inner loop that skips a subnegotiation, to just after IAC SE or to the end of the chunk. */
  method SkipSubnegotiation(data: bytes, start: nat, ghost c: Config) returns (i: nat)
    requires start <= |data| && c.state.InSub?
    ensures start <= i <= |data|
    ensures EndChunk(Feed(c, data[start..])) == EndChunk(Feed(c.(state := Normal), data[i..]))
  {
    i := start;
    while i < |data|
      invariant start <= i <= |data|
      invariant EndChunk(Feed(c, data[start..])) == EndChunk(Feed(c, data[i..]))
    {
      FeedStep(c, data, i);
      if data[i] == IAC && i + 1 < |data| && data[i + 1] == SE {
        return i + 2;
      }
      SubScanStep(c, data[i..]);
      i := i + 1;
    }
  }

  /** One received chunk of _telnet_negotiate. */
  method DecodeChunk(data: bytes, pendingBefore: bool, outBefore: bytes, repliesBefore: seq<bytes>)
    returns (pending: bool, out: bytes, replies: seq<bytes>)
    ensures Config(if pending then SawIac else Normal, out, replies)
         == EndChunk(Feed(Config(if pendingBefore then SawIac else Normal, outBefore, repliesBefore), data))
  {
    pending, out, replies := pendingBefore, outBefore, repliesBefore;
    ghost var goal := EndChunk(Feed(Config(if pending then SawIac else Normal, out, replies), data));
    var i := 0;
    while i < |data|
      invariant 0 <= i
      invariant pending && i > 0 ==> i == |data|
      invariant EndChunk(Feed(Config(if pending then SawIac else Normal, out, replies), Rest(data, i))) == goal
      decreases |data| - i
    {
      ghost var c := Config(SawIac, out, replies);
      var b := data[i];
      if pending {
        CommandStep(c, data, i);
        if b == IAC {
          out := out + [IAC];
          i := i + 1;
        } else if IsOption(b) {
          var opt := if i + 1 < |data| then data[i + 1] else 0;
          if b == WILL {
            replies := replies + [[IAC, DONT, opt]];
          } else if b == DO {
            replies := replies + [[IAC, WONT, opt]];
          }
          assert replies == c.replies + Refusal(b, opt);
          i := i + 2;
        } else if b == SB {
          i := SkipSubnegotiation(data, i + 1, c.(state := InSub));
        } else {
          i := i + 1;
        }
        pending := false;
      } else if b == IAC {
        FeedStep(Config(Normal, out, replies), data, i);
        if i + 1 < |data| {
          var cmd := data[i + 1];
          CommandStep(c, data, i + 1);
          if IsOption(cmd) {
            var opt := if i + 2 < |data| then data[i + 2] else 0;
            if cmd == WILL {
              replies := replies + [[IAC, DONT, opt]];
            } else if cmd == DO {
              replies := replies + [[IAC, WONT, opt]];
            }
            assert replies == c.replies + Refusal(cmd, opt);
            i := i + 3;
          } else if cmd == SB {
            i := SkipSubnegotiation(data, i + 2, c.(state := InSub));
          } else if cmd == IAC {
            out := out + [IAC];
            i := i + 2;
          } else {
            i := i + 2;
          }
        } else {
          pending := true;
          i := i + 1;
        }
      } else {
        FeedStep(Config(Normal, out, replies), data, i);
        out := out + [b];
        i := i + 1;
      }
    }
  }

  /** _telnet_negotiate over the chunks recv returned before the deadline, an empty one meaning the peer closed. */
  method Negotiate(chunks: seq<bytes>) returns (out: bytes, replies: seq<bytes>)
    ensures out == RunChunks(START, chunks).out && replies == RunChunks(START, chunks).replies
  {
    out, replies := [], [];
    var pending := false;
    var n := 0;
    while n < |chunks|
      invariant 0 <= n <= |chunks|
      invariant RunChunks(Config(if pending then SawIac else Normal, out, replies), chunks[n..])
             == RunChunks(START, chunks)
    {
      var data := chunks[n];
      if data == [] {
        return;
      }
      assert chunks[n..][1..] == chunks[n + 1..];
      pending, out, replies := DecodeChunk(data, pending, out, replies);
      n := n + 1;
    }
  }
}
