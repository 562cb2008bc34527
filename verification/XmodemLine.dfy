/** Sender, line and strict receiver as one system: what the receiver has counted is always what the sender sent. */
module XmodemLine {
  import opened Common
  import opened Xmodem

  type Payload = p: bytes | |p| == 128 witness seq(128, _ => 0)

  /** The i-th block of a transfer as the sender numbers and seals it: 1, 2, ... modulo 256. */
  function Frame(i: nat, p: Payload): (f: Block)
    ensures Sound(f) && f[0] == (i + 1) % 256 && f[2..130] == p
  {
    var n: byte := (i + 1) % 256;
    var f := [n, 255 - n] + p + [Sum(p) % 256];
    assert f[2..130] == p;
    f
  }

  /** What the line does to one transmission, and whether the answer gets back. */
  datatype Fate = Intact | Lost | Damaged(block: Block)

  datatype Exchange = Exchange(fate: Fate, answerArrives: bool)

  /** `sent` counts the blocks acknowledged to the sender; `finished` is an acknowledged end of transmission. */
  datatype System = System(sent: nat, rx: Receiver, finished: bool)

  const BEGIN := System(0, IDLE.(replies := [RequestCrc]), false)

  /** Damage is detectable when the block's own complement or checksum betrays it. */
  predicate Detectable(x: Exchange) {
    x.fate.Damaged? ==> !Sound(x.fate.block)
  }

  function Arrives(x: Exchange, lead: byte, block: Option<Block>): Event {
    match x.fate
    case Intact => Start(lead, block)
    case Lost => Silence
    case Damaged(b) => if block.None? then Silence else Start(lead, Some(b))
  }

  /** The sender repeats a block until it hears ACK, then sends the next one; after the last one it sends EOT. */
  function Step(s: System, blocks: seq<Payload>, x: Exchange): System {
    if s.finished then s
    else
      var event := if s.sent < |blocks| then Arrives(x, SOH, Some(Frame(s.sent, blocks[s.sent])))
                   else Arrives(x, EOT, None);
      var rx := Receive(s.rx, event);
      var heardAck := x.answerArrives && |rx.replies| > |s.rx.replies| && rx.replies[|rx.replies| - 1] == Ack;
      if s.sent < |blocks| then System(if heardAck then s.sent + 1 else s.sent, rx, false)
      else System(s.sent, rx, heardAck)
  }

  function Run(s: System, blocks: seq<Payload>, xs: seq<Exchange>): System
    decreases |xs|
  {
    if xs == [] then s else Run(Step(s, blocks, xs[0]), blocks, xs[1..])
  }

  ghost predicate Inv(s: System, blocks: seq<Payload>) {
    var n := |s.rx.accepted|;
    && n <= |blocks| && s.rx.accepted == blocks[..n]
    && s.rx.expected == (n + 1) % 256
    && (n == s.sent || n == s.sent + 1)
    && (s.rx.stopped ==> s.rx.complete && n == |blocks| == s.sent)
    && (s.finished ==> s.rx.complete && s.rx.stopped)
    && (s.rx.complete ==> s.rx.stopped)
  }

  lemma StepKeepsInv(s: System, blocks: seq<Payload>, x: Exchange)
    requires Inv(s, blocks) && Detectable(x)
    ensures Inv(Step(s, blocks, x), blocks)
    ensures s.rx.accepted <= Step(s, blocks, x).rx.accepted
  {
    var n := |s.rx.accepted|;
    if !s.finished && s.sent < |blocks| && x.fate.Intact? && n == s.sent {
      assert blocks[..n + 1] == blocks[..n] + [blocks[n]];
    }
  }

  lemma {:induction false} RunKeepsInv(s: System, blocks: seq<Payload>, xs: seq<Exchange>)
    requires Inv(s, blocks) && forall i | 0 <= i < |xs| :: Detectable(xs[i])
    ensures Inv(Run(s, blocks, xs), blocks)
    decreases |xs|
  {
    if xs != [] {
      StepKeepsInv(s, blocks, xs[0]);
      RunKeepsInv(Step(s, blocks, xs[0]), blocks, xs[1..]);
    }
  }

  /** Safety of every run: the blocks counted as new are a prefix of the sender's, each once and in order, at most one
      ahead of what the sender knows; and all of them once EOT is acknowledged by the receiver. */
  lemma AcceptedIsAPrefix(blocks: seq<Payload>, xs: seq<Exchange>)
    requires forall i | 0 <= i < |xs| :: Detectable(xs[i])
    ensures var end := Run(BEGIN, blocks, xs);
            && end.rx.accepted <= blocks
            && end.sent <= |end.rx.accepted| <= end.sent + 1
            && (end.rx.complete || end.finished ==> end.rx.accepted == blocks)
  {
    RunKeepsInv(BEGIN, blocks, xs);
    var end := Run(BEGIN, blocks, xs);
    assert blocks[..|blocks|] == blocks;
  }

  /** Progress: an undisturbed exchange is never refused.  It moves the sender on by one block, or ends the transfer. */
  lemma CleanExchangeAdvances(s: System, blocks: seq<Payload>)
    requires Inv(s, blocks) && !s.rx.stopped
    ensures var s' := Step(s, blocks, Exchange(Intact, true));
            if s.sent < |blocks| then s'.sent == s.sent + 1 && !s'.rx.stopped && !s'.finished else s'.finished
  {
    if s.sent < |blocks| {
      var f := Frame(s.sent, blocks[s.sent]);
      assert f[0] == s.rx.expected || f[0] == (s.rx.expected + 255) % 256;
      var rx := Receive(s.rx, Start(SOH, Some(f)));
      assert rx.replies == s.rx.replies + [Ack] && !rx.stopped;
    }
  }

  /** While the receiver has not stopped, however badly the line behaved before, as many clean exchanges as blocks are
      missing, and one more for EOT, complete the transfer. */
  lemma {:induction false} CleanLineCompletes(s: System, blocks: seq<Payload>, xs: seq<Exchange>)
    requires Inv(s, blocks) && !s.rx.stopped && s.sent <= |blocks|
    requires |xs| == |blocks| - s.sent + 1 && forall i | 0 <= i < |xs| :: xs[i] == Exchange(Intact, true)
    ensures Run(s, blocks, xs).finished && Run(s, blocks, xs).rx.accepted == blocks
    decreases |xs|
  {
    CleanExchangeAdvances(s, blocks);
    StepKeepsInv(s, blocks, xs[0]);
    var s' := Step(s, blocks, xs[0]);
    if s.sent < |blocks| {
      CleanLineCompletes(s', blocks, xs[1..]);
    } else {
      assert xs[1..] == [];
      assert Run(s', blocks, xs[1..]) == s';
      assert blocks[..|blocks|] == blocks;
    }
  }

  /** A receiver that has stopped never answers, so the sender never hears its EOT acknowledged. */
  lemma {:induction false} StoppedNeverFinishes(s: System, blocks: seq<Payload>, xs: seq<Exchange>)
    requires s.rx.stopped && !s.finished
    ensures !Run(s, blocks, xs).finished
    decreases |xs|
  {
    if xs != [] {
      StoppedNeverFinishes(Step(s, blocks, xs[0]), blocks, xs[1..]);
    }
  }

  /** The transfer can still be completed exactly when it is, or the receiver has not stopped. */
  lemma FinishesExactlyWhenNotStopped(s: System, blocks: seq<Payload>)
    requires Inv(s, blocks)
    ensures (exists xs :: Run(s, blocks, xs).finished) <==> s.finished || !s.rx.stopped
  {
    if s.finished {
      assert Run(s, blocks, []).finished;
    } else if s.rx.stopped {
      forall xs ensures !Run(s, blocks, xs).finished {
        StoppedNeverFinishes(s, blocks, xs);
      }
    } else {
      var xs := seq(|blocks| - s.sent + 1, _ => Exchange(Intact, true));
      CleanLineCompletes(s, blocks, xs);
    }
  }

  /** The exchange that takes the last chance away: EOT gets through and its acknowledgement does not. */
  predicate LosesLastAck(s: System, blocks: seq<Payload>, x: Exchange) {
    s.sent == |blocks| && x.fate == Intact && !x.answerArrives
  }

  /** Of all exchanges, only that one leaves a transfer that could be completed in a state where it cannot. */
  lemma ChanceIsLostExactlyByLastAck(s: System, blocks: seq<Payload>, x: Exchange)
    requires Inv(s, blocks) && !s.finished && !s.rx.stopped && Detectable(x)
    ensures (exists xs :: Run(Step(s, blocks, x), blocks, xs).finished) <==> !LosesLastAck(s, blocks, x)
  {
    StepKeepsInv(s, blocks, x);
    FinishesExactlyWhenNotStopped(Step(s, blocks, x), blocks);
  }

  /** The shortest such run: an empty transfer whose one acknowledgement is lost. */
  lemma LostAckNeverFinishes(xs: seq<Exchange>)
    ensures var s := Run(BEGIN, [], [Exchange(Intact, false)]);
            s.rx.complete && !s.finished && !Run(s, [], xs).finished
  {
    var first := [Exchange(Intact, false)];
    assert first[1..] == [];
    var s := Step(BEGIN, [], first[0]);
    assert Run(BEGIN, [], first) == Run(s, [], []);
    StoppedNeverFinishes(s, [], xs);
  }

  // -- Which damage is detectable -----------------------------------------------------------------------------------

  lemma {:induction false} SumUpdate(data: bytes, i: nat, b: byte)
    requires i < |data|
    ensures Sum(data[i := b]) == Sum(data) - data[i] + b
  {
    if i == 0 {
      assert data[i := b][1..] == data[1..];
    } else {
      assert data[i := b][1..] == data[1..][i - 1 := b];
      SumUpdate(data[1..], i - 1, b);
    }
  }

  /** Any single damaged octet, wherever in the block it falls, has the block refused by one NAK and nothing counted. */
  lemma SingleOctetDamageIsDetected(i: nat, p: Payload, at: nat, b: byte, r: Receiver, lead: byte)
    requires at < BLOCK && Frame(i, p)[at] != b
    requires !r.stopped && (lead == 0x01 || lead == 0x02)
    ensures !Sound(Frame(i, p)[at := b])
    ensures Receive(r, Start(lead, Some(Frame(i, p)[at := b]))) == r.(replies := r.replies + [Nak])
  {
    DamageIsUnsound(i, p, at, b);
    BadBlockIsRefused(r, lead, Frame(i, p)[at := b]);
  }

  lemma DamageIsUnsound(i: nat, p: Payload, at: nat, b: byte)
    requires at < BLOCK && Frame(i, p)[at] != b
    ensures !Sound(Frame(i, p)[at := b]) && !Xmodem.Intact(Frame(i, p)[at := b])
  {
    var f := Frame(i, p);
    var g := f[at := b];
    if 2 <= at < 130 {
      assert g[2..130] == p[at - 2 := b];
      SumUpdate(p, at - 2, b);
    } else {
      assert g[2..130] == p;
    }
  }

  /** The frame with other data, its number, complement and checksum unchanged. */
  function Altered(i: nat, p: Payload, q: Payload): Block {
    Frame(i, p)[..2] + q + Frame(i, p)[130..]
  }

  /** The limit of an 8-bit sum: altered data passes exactly if it adds up to the same. */
  lemma AlteredDataPassesExactlyWhenSumsAgree(i: nat, p: Payload, q: Payload)
    ensures Sound(Altered(i, p, q)) <==> Sum(q) % 256 == Sum(p) % 256
  {
    assert Altered(i, p, q)[2..130] == q && Altered(i, p, q)[130] == Frame(i, p)[130];
  }

  /** And then the receiver acknowledges it and counts data that was never sent. */
  lemma UndetectedDamageIsCounted(p: Payload, q: Payload)
    requires p != q && Sum(q) % 256 == Sum(p) % 256
    ensures var end := Run(BEGIN, [p], [Exchange(Damaged(Altered(0, p, q)), true)]);
            end.rx.accepted == [q] && end.rx.accepted != [p] && end.sent == 1
  {
    var g := Altered(0, p, q);
    AlteredDataPassesExactlyWhenSumsAgree(0, p, q);
    assert g[2..130] == q && g[0] == 1;
    var xs := [Exchange(Damaged(g), true)];
    assert xs[1..] == [];
    assert Run(BEGIN, [p], xs) == Run(Step(BEGIN, [p], xs[0]), [p], []);
  }

  /** Two different octets that trade places are such an alteration. */
  lemma ExchangedOctetsPass(i: nat, p: Payload, q: Payload, j: nat, k: nat)
    requires j < k < 128 && p[j] != p[k] && q == p[j := p[k]][k := p[j]]
    ensures q != p && Sum(q) == Sum(p) && Sound(Altered(i, p, q))
  {
    SumUpdate(p, j, p[k]);
    SumUpdate(p[j := p[k]], k, p[j]);
    assert q[j] != p[j];
    AlteredDataPassesExactlyWhenSumsAgree(i, p, q);
  }
}
