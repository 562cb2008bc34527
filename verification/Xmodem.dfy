/** The strict XMODEM receiver, and the stop-and-wait system it forms with a sender and a lossy half-duplex line. */
module Xmodem {
  import opened Common

  const SOH: byte := 0x01
  const STX: byte := 0x02
  const EOT: byte := 0x04

  /** What follows the leading octet: number, complement, 128 data octets, checksum. */
  const BLOCK: nat := 131

  type Block = b: bytes | |b| == BLOCK witness seq(BLOCK, _ => 0)

  // -- Reading a block ----------------------------------------------------------------------------------------------

  datatype ReadResult = NotReady | Chunk(data: bytes) | Failed

  /** The octets that arrive before the first error or end of file. */
  function Arriving(script: seq<ReadResult>): bytes {
    if script == [] || script[0].Failed? || script[0] == Chunk([]) then []
    else (if script[0].Chunk? then script[0].data else []) + Arriving(script[1..])
  }

  /** While no read fails or ends the file, everything that is read arrives; what comes after that does not. */
  lemma {:induction false} ArrivingIsWhatWasRead(script: seq<ReadResult>, n: nat)
    requires n <= |script| && forall i | 0 <= i < n :: script[i].NotReady? || (script[i].Chunk? && script[i].data != [])
    requires n < |script| ==> script[n].Failed? || script[n] == Chunk([])
    ensures Arriving(script)
         == Join(seq(n, i requires 0 <= i < n => if script[i].Chunk? then script[i].data else []))
  {
    if n > 0 {
      ArrivingIsWhatWasRead(script[1..], n - 1);
      var parts := seq(n, i requires 0 <= i < n => if script[i].Chunk? then script[i].data else []);
      assert parts[1..] == seq(n - 1, i requires 0 <= i < n - 1 =>
                                        if script[1..][i].Chunk? then script[1..][i].data else []);
    }
  }

  /** _read_block_bytes: the script ends where the deadline falls.  A read never takes more than is still missing. */
  method ReadBlockBytes(script: seq<ReadResult>, n: nat) returns (block: Option<bytes>)
    ensures block == if |Arriving(script)| >= n then Some(Arriving(script)[..n]) else None
  {
    var data: bytes := [];
    var i := 0;
    while |data| < n && i < |script|
      invariant 0 <= i <= |script| && |data| <= n
      invariant |data| < n ==> data + Arriving(script[i..]) == Arriving(script)
      invariant |data| == n ==> n <= |Arriving(script)| && data == Arriving(script)[..n]
    {
      assert script[i..][1..] == script[i + 1..];
      match script[i] {
        case NotReady =>
        case Failed =>
          return None;
        case Chunk(arrived) =>
          var chunk := if |arrived| <= n - |data| then arrived else arrived[..n - |data|];
          if chunk == [] {
            return None;
          }
          assert data + Arriving(script[i..]) == data + arrived + Arriving(script[i + 1..]);
          data := data + chunk;
      }
      i := i + 1;
    }
    if |data| < n {
      return None;
    }
    block := Some(data);
  }

  // -- The receiver -------------------------------------------------------------------------------------------------

  datatype Reply = RequestCrc | Ack | Nak

  /** One turn of the loop: nothing read, a failed read, or a leading octet and the block that follows it, if any. */
  datatype Event = Silence | ReadError | Start(lead: byte, block: Option<Block>)

  /** `accepted` collects the data of the blocks counted as new; the source keeps only the expected number. */
  datatype Receiver = Receiver(expected: byte, accepted: seq<bytes>, replies: seq<Reply>, stopped: bool, complete: bool)

  const IDLE := Receiver(1, [], [], false, false)

  function Sum(data: bytes): nat {
    if data == [] then 0 else data[0] + Sum(data[1..])
  }

  /** Complement and checksum agree with the number and the data. */
  predicate Sound(block: Block) {
    block[1] == 255 - block[0] && Sum(block[2..130]) % 256 == block[130]
  }

  function Receive(r: Receiver, e: Event): Receiver {
    if r.stopped then r
    else
      match e
      case Silence => r
      case ReadError => r.(stopped := true)
      case Start(lead, block) =>
        if lead == EOT then r.(replies := r.replies + [Ack], stopped := true, complete := true)
        else if (lead != SOH && lead != STX) || block.None? then r
        else if Sound(block.value) && block.value[0] == r.expected then
          r.(replies := r.replies + [Ack], expected := (r.expected + 1) % 256,
             accepted := r.accepted + [block.value[2..130]])
        else if Sound(block.value) && block.value[0] == (r.expected + 255) % 256 then
          r.(replies := r.replies + [Ack])
        else r.(replies := r.replies + [Nak])
  }

  /** The checksum octet is the sum of the data modulo 256, and the second octet the complement of the first. */
  predicate Intact(block: Block) {
    block[0] as int + block[1] == 255 && (block[130] as int - Sum(block[2..130])) % 256 == 0
  }

  /** A block that is damaged, or out of turn, is answered by one NAK and leaves no other trace. */
  lemma BadBlockIsRefused(r: Receiver, lead: byte, block: Block)
    requires !r.stopped && (lead == 0x01 || lead == 0x02)
    requires !Intact(block) || (block[0] != r.expected && (block[0] as int + 1) % 256 != r.expected)
    ensures Receive(r, Start(lead, Some(block)))
         == Receiver(r.expected, r.accepted, r.replies + [Nak], false, r.complete)
  {
  }

  /** A repetition of the last block is answered by one ACK and not counted again. */
  lemma RepetitionIsAcknowledged(r: Receiver, lead: byte, block: Block)
    requires !r.stopped && (lead == 0x01 || lead == 0x02)
    requires Intact(block) && (block[0] as int + 1) % 256 == r.expected
    ensures Receive(r, Start(lead, Some(block)))
         == Receiver(r.expected, r.accepted, r.replies + [Ack], false, r.complete)
  {
  }

  /** The next block is answered by one ACK, and its data counted. */
  lemma NextBlockIsCounted(r: Receiver, lead: byte, block: Block)
    requires !r.stopped && (lead == 0x01 || lead == 0x02)
    requires Intact(block) && block[0] == r.expected
    ensures Receive(r, Start(lead, Some(block)))
         == Receiver((r.expected + 1) % 256, r.accepted + [block[2..130]], r.replies + [Ack], false, r.complete)
  {
  }

  /** EOT is acknowledged and ends reception, a failed read ends it silently, and everything else is passed over. */
  lemma OtherEvents(r: Receiver, lead: byte, block: Option<Block>)
    requires !r.stopped
    ensures Receive(r, Start(0x04, block)) == Receiver(r.expected, r.accepted, r.replies + [Ack], true, true)
    ensures Receive(r, ReadError) == Receiver(r.expected, r.accepted, r.replies, true, r.complete)
    ensures Receive(r, Silence) == r
    ensures lead != 0x04 && (block.None? || (lead != 0x01 && lead != 0x02)) ==> Receive(r, Start(lead, block)) == r
  {
  }

  function ReceiveAll(r: Receiver, es: seq<Event>): Receiver
    decreases |es|
  {
    if es == [] then r else ReceiveAll(Receive(r, es[0]), es[1..])
  }

  lemma {:induction false} StoppedStays(r: Receiver, es: seq<Event>)
    requires r.stopped
    ensures ReceiveAll(r, es) == r
    decreases |es|
  {
    if es != [] { StoppedStays(r, es[1..]); }
  }

  /** sum(data) */
  method SumOf(data: bytes) returns (total: nat)
    ensures total == Sum(data)
  {
    total := 0;
    var i := 0;
    while i < |data|
      invariant 0 <= i <= |data|
      invariant total + Sum(data[i..]) == Sum(data)
    {
      assert data[i..][1..] == data[i + 1..];
      total := total + data[i];
      i := i + 1;
    }
  }

  /** _strict_xmodem_receive, until the stop event (the end of the script).  It first asks for CRC mode with a 'C',
      though it goes on to verify 8-bit checksums. */
  method StrictReceive(es: seq<Event>) returns (replies: seq<Reply>, expected: byte, ghost accepted: seq<bytes>)
    ensures var end := ReceiveAll(IDLE.(replies := if es == [] then [] else [RequestCrc]), es);
            replies == end.replies && expected == end.expected && accepted == end.accepted
  {
    expected := 1;
    replies := [];
    accepted := [];
    var first := true;
    var i := 0;
    ghost var begin := IDLE.(replies := if es == [] then [] else [RequestCrc]);
    assert es[0..] == es;
    while i < |es|
      invariant 0 <= i <= |es| && (first <==> i == 0) && (first ==> replies == [])
      invariant var now := if first then begin else Receiver(expected, accepted, replies, false, false);
                ReceiveAll(now, es[i..]) == ReceiveAll(begin, es)
      invariant first ==> expected == 1 && accepted == []
    {
      if first {
        replies := replies + [RequestCrc];
        first := false;
      }
      ghost var before := Receiver(expected, accepted, replies, false, false);
      assert i == 0 ==> before == begin;
      assert es[i..][1..] == es[i + 1..];
      assert ReceiveAll(before, es[i..]) == ReceiveAll(Receive(before, es[i]), es[i + 1..]);
      match es[i] {
        case Silence =>
        case ReadError =>
          StoppedStays(Receive(before, es[i]), es[i + 1..]);
          return;
        case Start(lead, block) =>
          if lead == EOT {
            replies := replies + [Ack];
            StoppedStays(Receive(before, es[i]), es[i + 1..]);
            return;
          }
          if (lead == SOH || lead == STX) && block.Some? {
            var blockBytes := block.value;
            var blockNum: int := blockBytes[0];
            var complement := blockBytes[1];
            var data := blockBytes[2..130];
            var total := SumOf(data);
            var isRetransmission := blockNum == (expected + 255) % 256;
            var isExpected := blockNum == expected;
            if complement != 255 - blockNum || total % 256 != blockBytes[130] || !(isExpected || isRetransmission) {
              replies := replies + [Nak];
            } else {
              replies := replies + [Ack];
              if isExpected {
                accepted := accepted + [data];
                expected := (blockNum + 1) % 256;
              }
            }
          }
      }
      i := i + 1;
    }
  }
}
