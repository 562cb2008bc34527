/** What the telnet decoder means: token streams, their round trip, and exactly which chunk cuts are harmless. */
module TelnetTokens {
  import opened Common
  import opened Telnet

  // -- Which cuts are harmless --------------------------------------------------------------------------------------

  /** A cut here loses nothing: outside any command, or just after a command's leading IAC. */
  predicate Clean(s: State) {
    s.Normal? || s.SawIac?
  }

  /** After the same earlier chunks, one more chunk delivered as `a` and then the rest, or with no cut between `a` and
      what follows it, decodes alike. */
  ghost predicate SplitAgrees(before: seq<bytes>, a: bytes, more: seq<bytes>)
    requires more != []
  {
    var cut, whole := before + [a] + more, before + [a + more[0]] + more[1..];
    && RunChunks(START, cut).out == RunChunks(START, whole).out
    && RunChunks(START, cut).replies == RunChunks(START, whole).replies
  }

  lemma RunOne(c: Config, x: bytes)
    requires x != []
    ensures RunChunks(c, [x]) == EndChunk(Feed(c, x))
  {
    assert [x][1..] == [];
    assert RunChunks(EndChunk(Feed(c, x)), []) == EndChunk(Feed(c, x));
  }

  lemma FeedOne(c: Config, b: byte)
    ensures Feed(c, [b]) == Feed1(c, b)
  {
    assert [b][1..] == [];
    assert Feed(Feed1(c, b), []) == Feed1(c, b);
  }

  lemma {:induction false} RunSnoc(c: Config, chunks: seq<bytes>, last: bytes)
    requires last != [] && forall i | 0 <= i < |chunks| :: chunks[i] != []
    ensures RunChunks(c, chunks + [last]) == EndChunk(Feed(RunChunks(c, chunks), last))
    decreases |chunks|
  {
    if chunks == [] {
      assert chunks + [last] == [last];
      RunOne(c, last);
    } else {
      assert (chunks + [last])[1..] == chunks[1..] + [last];
      RunSnoc(EndChunk(Feed(c, chunks[0])), chunks[1..], last);
    }
  }

  lemma {:induction false} RunAppend(c: Config, xs: seq<bytes>, ys: seq<bytes>)
    requires forall i | 0 <= i < |xs| :: xs[i] != []
    ensures RunChunks(c, xs + ys) == RunChunks(RunChunks(c, xs), ys)
    decreases |xs|
  {
    if xs == [] {
      assert xs + ys == ys;
    } else {
      assert (xs + ys)[1..] == xs[1..] + ys;
      RunAppend(EndChunk(Feed(c, xs[0])), xs[1..], ys);
    }
  }

  /** An empty chunk is the end of the stream: nothing after it counts. */
  lemma EmptyChunkEndsTheStream(c: Config, xs: seq<bytes>, ys: seq<bytes>)
    requires forall i | 0 <= i < |xs| :: xs[i] != []
    ensures RunChunks(c, xs + ([[]] + ys)) == RunChunks(c, xs)
  {
    RunAppend(c, xs, [[]] + ys);
  }

  lemma RunAfter(before: seq<bytes>, a: bytes, more: seq<bytes>)
    requires a != [] && forall i | 0 <= i < |before| :: before[i] != []
    ensures RunChunks(START, before + [a] + more) == RunChunks(EndChunk(Feed(RunChunks(START, before), a)), more)
  {
    RunAppend(START, before + [a], more);
    RunAppend(START, before, [a]);
    RunOne(RunChunks(START, before), a);
  }

  /** After any chunks, a cut after `a` is harmless for every continuation, itself cut in any way, exactly when the
      decoder stands outside a command or just after a leading IAC. */
  lemma CutIsHarmlessExactlyWhenClean(before: seq<bytes>, a: bytes)
    requires a != [] && forall i | 0 <= i < |before| :: before[i] != []
    ensures (forall more | more != [] && more[0] != [] :: SplitAgrees(before, a, more))
       <==> Clean(Feed(RunChunks(START, before), a).state)
  {
    var c := Feed(RunChunks(START, before), a);
    if Clean(c.state) {
      forall more | more != [] && more[0] != [] ensures SplitAgrees(before, a, more) {
        RunAfter(before, a, more);
        RunAfter(before, a + more[0], more[1..]);
        FeedConcat(RunChunks(START, before), a, more[0]);
      }
    } else {
      LetterShowsTheCut(before, a);
    }
  }

  /** A letter is data after a cut and part of the unfinished command without one. */
  lemma LetterShowsTheCut(before: seq<bytes>, a: bytes)
    requires a != [] && forall i | 0 <= i < |before| :: before[i] != []
    requires !Clean(Feed(RunChunks(START, before), a).state)
    ensures !SplitAgrees(before, a, [[65]])
  {
    var c := Feed(RunChunks(START, before), a);
    RunAfter(before, a, [[65]]);
    RunAfter(before, a + [65], []);
    RunOne(EndChunk(c), [65]);
    FeedConcat(RunChunks(START, before), a, [65]);
    FeedOne(c, 65);
    FeedOne(EndChunk(c), 65);
  }

  /** A harmful cut: WILL, and its option in the next chunk.  The wrong option is answered and the right one is data. */
  lemma CutOptionBecomesData()
    ensures RunChunks(START, [[IAC, WILL], [65]]) == Config(Normal, [65], [[IAC, DONT, 0]])
    ensures RunChunks(START, [[IAC, WILL, 65]]) == Config(Normal, [], [[IAC, DONT, 65]])
  {
    var half: bytes := [IAC, WILL];
    RunSnoc(START, [half], [65]);
    assert [half] + [[65]] == [half, [65]];
    RunOne(START, half);
    RunOne(START, half + [65]);
    FeedConcat(START, half, [65]);
    assert half[1..] == [WILL];
    FeedOne(Feed1(START, IAC), WILL);
    FeedOne(Feed(START, half), 65);
    FeedOne(RunChunks(START, [half]), 65);
    assert half + [65] == [IAC, WILL, 65];
  }

  /** The same for every command: what a chunk that ends before the option has answered, whatever came before. */
  lemma CutOptionIsAnsweredAsZero(c: Config, a: bytes, cmd: byte)
    requires Feed(c, a).state == SawOption(cmd)
    ensures var d := EndChunk(Feed(c, a));
            && d.state == Normal && d.out == Feed(c, a).out
            && d.replies == Feed(c, a).replies + (if cmd == 251 then [[255, 254, 0]]
                                                  else if cmd == 253 then [[255, 252, 0]] else [])
  {
  }

  /** However many chunks, only the state at each cut matters. */
  lemma {:induction false} CleanCutsDoNotMatter(chunks: seq<bytes>)
    requires chunks != [] && forall i | 0 <= i < |chunks| :: chunks[i] != []
    requires forall i | 0 < i < |chunks| :: Clean(Feed(START, Join(chunks[..i])).state)
    ensures RunChunks(START, chunks) == EndChunk(Feed(START, Join(chunks)))
    ensures RunChunks(START, chunks) == RunChunks(START, [Join(chunks)])
  {
    var n := |chunks| - 1;
    var front, last := chunks[..n], chunks[n];
    assert chunks == front + [last];
    RunSnoc(START, front, last);
    JoinSnoc(front, last);
    FeedConcat(START, Join(front), last);
    if n > 0 {
      forall i | 0 < i < n ensures Clean(Feed(START, Join(front[..i])).state) {
        assert front[..i] == chunks[..i];
      }
      CleanCutsDoNotMatter(front);
    }
    RunOne(START, Join(chunks));
  }

  // -- Token streams, in the octets of RFC 854 and RFC 855 ----------------------------------------------------------

  datatype Token =
    | Data(value: byte)                // any octet; 255 travels doubled
    | Negotiation(cmd: byte, opt: byte)
    | Subnegotiation(payload: bytes)
    | Command(code: byte)              // any other two-byte command

  predicate FreeOfIacSe(p: bytes) {
    forall i | 0 <= i < |p| - 1 :: !(p[i] == 255 && p[i + 1] == 240)
  }

  predicate WellFormed(t: Token) {
    match t
    case Data(_) => true
    case Negotiation(cmd, _) => 251 <= cmd <= 254
    case Subnegotiation(p) => FreeOfIacSe(p)
    case Command(code) => code < 250
  }

  predicate AllWellFormed(ts: seq<Token>) {
    forall i | 0 <= i < |ts| :: WellFormed(ts[i])
  }

  function Encode(t: Token): (s: bytes)
    ensures s != []
  {
    match t
    case Data(v) => if v == 255 then [255, 255] else [v]
    case Negotiation(cmd, opt) => [255, cmd, opt]
    case Subnegotiation(p) => [255, 250] + p + [255, 240]
    case Command(code) => [255, code]
  }

  function EncodeAll(ts: seq<Token>): bytes {
    if ts == [] then [] else Encode(ts[0]) + EncodeAll(ts[1..])
  }

  function PayloadOf(t: Token): bytes {
    if t.Data? then [t.value] else []
  }

  /** WILL (251) is answered DONT (254), DO (253) is answered WONT (252), and nothing else is answered. */
  function AnswersTo(t: Token): seq<bytes> {
    if t.Negotiation? && t.cmd == 251 then [[255, 254, t.opt]]
    else if t.Negotiation? && t.cmd == 253 then [[255, 252, t.opt]]
    else []
  }

  /** The data octets of a stream, which is what the caller must receive. */
  function Payload(ts: seq<Token>): bytes {
    if ts == [] then [] else PayloadOf(ts[0]) + Payload(ts[1..])
  }

  /** The answers owed: one DONT for each WILL and one WONT for each DO, in order. */
  function Answers(ts: seq<Token>): seq<bytes> {
    if ts == [] then [] else AnswersTo(ts[0]) + Answers(ts[1..])
  }

  lemma {:induction false} FeedSubnegotiation(c: Config, p: bytes)
    requires c.state.InSub? || (c.state.InSubIac? && (p == [] || p[0] != SE))
    requires FreeOfIacSe(p)
    ensures Feed(c, p + [IAC, SE]) == c.(state := Normal)
    decreases |p|
  {
    var s := p + [IAC, SE];
    if p == [] {
      assert s == [IAC, SE];
      assert s[1..] == [SE];
      FeedOne(Feed1(c, IAC), SE);
    } else {
      assert s[1..] == p[1..] + [IAC, SE];
      FeedSubnegotiation(Feed1(c, p[0]), p[1..]);
      if c.state.InSub? { assert Feed1(c, p[0]).(state := Normal) == c.(state := Normal); }
    }
  }

  lemma FeedToken(c: Config, t: Token)
    requires c.state.Normal? && WellFormed(t)
    ensures Feed(c, Encode(t)) == Config(Normal, c.out + PayloadOf(t), c.replies + AnswersTo(t))
  {
    var s := Encode(t);
    var c1 := Feed1(c, s[0]);
    if |s| == 1 {
      FeedOne(c, s[0]);
    } else if t.Subnegotiation? {
      var inSub := c.(state := InSub);
      assert s[1..] == [SB] + t.payload + [IAC, SE];
      assert s[1..][1..] == t.payload + [IAC, SE];
      FeedSubnegotiation(inSub, t.payload);
      assert Feed(c, s) == Feed(c1, s[1..]) == Feed(inSub, t.payload + [IAC, SE]);
    } else if t.Negotiation? {
      assert s[1..] == [t.cmd, t.opt] && s[1..][1..] == [t.opt];
      FeedOne(Feed1(c1, t.cmd), t.opt);
      assert Feed(c, s) == Feed(c1, s[1..]) == Feed(Feed1(c1, t.cmd), [t.opt]);
    } else {
      assert s[1..] == [s[1]];
      FeedOne(c1, s[1]);
    }
  }

  lemma {:induction false} FeedTokens(c: Config, ts: seq<Token>)
    requires c.state.Normal? && AllWellFormed(ts)
    ensures Feed(c, EncodeAll(ts)) == Config(Normal, c.out + Payload(ts), c.replies + Answers(ts))
    decreases |ts|
  {
    if ts == [] {
      assert c.out + [] == c.out && c.replies + [] == c.replies;
    } else {
      var c1 := Feed(c, Encode(ts[0]));
      FeedToken(c, ts[0]);
      FeedConcat(c, Encode(ts[0]), EncodeAll(ts[1..]));
      FeedTokens(c1, ts[1..]);
      Assoc(c.out, PayloadOf(ts[0]), Payload(ts[1..]));
      Assoc(c.replies, AnswersTo(ts[0]), Answers(ts[1..]));
    }
  }

  /** A cut before a token, or right after the IAC that leads it. */
  ghost predicate TokenCut(ts: seq<Token>, k: nat) {
    exists i | 0 <= i <= |ts| :: CutAt(ts, i, k)
  }

  ghost predicate CutAt(ts: seq<Token>, i: nat, k: nat)
    requires i <= |ts|
  {
    var before := |EncodeAll(ts[..i])|;
    k == before || (i < |ts| && |Encode(ts[i])| > 1 && k == before + 1)
  }

  lemma {:induction false} EncodeAllConcat(a: seq<Token>, b: seq<Token>)
    ensures EncodeAll(a + b) == EncodeAll(a) + EncodeAll(b)
  {
    if a == [] {
      assert a + b == b;
    } else {
      assert (a + b)[1..] == a[1..] + b;
      EncodeAllConcat(a[1..], b);
    }
  }

  lemma TokenCutIsClean(ts: seq<Token>, k: nat)
    requires AllWellFormed(ts) && k <= |EncodeAll(ts)| && TokenCut(ts, k)
    ensures Clean(Feed(START, EncodeAll(ts)[..k]).state)
  {
    var i: nat :| i <= |ts| && CutAt(ts, i, k);
    EncodedSplit(ts, i);
    FeedTokens(START, ts[..i]);
    if k == |EncodeAll(ts[..i])| {
      PrefixOf(EncodeAll(ts[..i]), EncodeAll(ts[i..]), []);
    } else {
      CutAfterIacIsClean(EncodeAll(ts[..i]), EncodeAll(ts[i..]));
    }
  }

  lemma CutAfterIacIsClean(before: bytes, after: bytes)
    requires Feed(START, before).state.Normal? && after != [] && after[0] == IAC
    ensures Clean(Feed(START, (before + after)[..|before| + 1]).state)
  {
    PrefixOf(before, after, [IAC]);
    IacIsClean(before);
  }

  lemma PrefixOf(a: bytes, b: bytes, p: bytes)
    requires p <= b
    ensures (a + b)[..|a| + |p|] == a + p && a + [] == a
  {
  }

  lemma IacIsClean(before: bytes)
    requires Feed(START, before).state.Normal?
    ensures Clean(Feed(START, before + [IAC]).state)
  {
    FeedConcat(START, before, [IAC]);
    FeedOne(Feed(START, before), IAC);
  }

  lemma EncodedSplit(ts: seq<Token>, i: nat)
    requires i <= |ts|
    ensures EncodeAll(ts) == EncodeAll(ts[..i]) + EncodeAll(ts[i..])
    ensures i < |ts| && |Encode(ts[i])| > 1 ==> EncodeAll(ts[i..]) != [] && EncodeAll(ts[i..])[0] == IAC
  {
    assert ts == ts[..i] + ts[i..];
    EncodeAllConcat(ts[..i], ts[i..]);
  }

  lemma {:induction false} JoinIsPrefix(chunks: seq<bytes>, i: nat)
    requires i <= |chunks|
    ensures |Join(chunks[..i])| <= |Join(chunks)|
    ensures Join(chunks)[..|Join(chunks[..i])|] == Join(chunks[..i])
    decreases |chunks| - i
  {
    if i < |chunks| {
      JoinIsPrefix(chunks, i + 1);
      assert chunks[..i + 1] == chunks[..i] + [chunks[i]];
      JoinSnoc(chunks[..i], chunks[i]);
    } else {
      assert chunks[..i] == chunks;
    }
  }

  /** Round trip and chunk independence at once: any stream of well-formed tokens, cut between tokens or right after a
      leading IAC, decodes to exactly its data octets and is answered exactly as owed. */
  lemma DecodeInvertsEncode(ts: seq<Token>, chunks: seq<bytes>)
    requires AllWellFormed(ts) && Join(chunks) == EncodeAll(ts)
    requires forall i | 0 <= i < |chunks| :: chunks[i] != []
    requires forall i | 0 < i < |chunks| :: TokenCut(ts, |Join(chunks[..i])|)
    ensures RunChunks(START, chunks) == Config(Normal, Payload(ts), Answers(ts))
  {
    FeedTokens(START, ts);
    if chunks != [] {
      forall i | 0 < i < |chunks| ensures Clean(Feed(START, Join(chunks[..i])).state) {
        JoinIsPrefix(chunks, i);
        TokenCutIsClean(ts, |Join(chunks[..i])|);
      }
      CleanCutsDoNotMatter(chunks);
    }
  }

  // -- The payload condition ----------------------------------------------------------------------------------------

  predicate Inside(s: State) {
    s.InSub? || s.InSubIac?
  }

  /** A subnegotiation is not left before its terminator exactly when its payload has no IAC SE in it. */
  lemma PayloadStaysInsideExactlyWhenFree(p: bytes)
    ensures (forall k | 0 <= k <= |p| :: Inside(Feed(Config(InSub, [], []), p[..k]).state)) <==> FreeOfIacSe(p)
  {
    var c := Config(InSub, [], []);
    if FreeOfIacSe(p) {
      forall k | 0 <= k <= |p| ensures Inside(Feed(c, p[..k]).state) {
        FreePayloadStaysInside(c, p[..k]);
      }
    } else {
      var i :| 0 <= i < |p| - 1 && p[i] == IAC && p[i + 1] == SE;
      var mid := Feed(c, p[..i]);
      assert p[..i + 2] == p[..i] + [IAC, SE];
      FeedConcat(c, p[..i], [IAC, SE]);
      assert [IAC, SE][1..] == [SE];
      FeedOne(Feed1(mid, IAC), SE);
      assert Inside(mid.state) ==> !Inside(Feed(c, p[..i + 2]).state);
    }
  }

  lemma {:induction false} FreePayloadStaysInside(c: Config, p: bytes)
    requires c.state.InSub? || (c.state.InSubIac? && (p == [] || p[0] != SE))
    requires FreeOfIacSe(p)
    ensures Inside(Feed(c, p).state)
    decreases |p|
  {
    if p != [] {
      FreePayloadStaysInside(Feed1(c, p[0]), p[1..]);
    }
  }

  /** RFC 855 doubles a 255 inside a subnegotiation, so the parameter octets 255 240 65 travel as 255 255 240 65.  The
      decoder takes the second 255 and the 240 for the terminator, and 65 becomes data. */
  lemma EscapedIacSeLeaksPayload()
    ensures RunChunks(START, [[IAC, SB, IAC, IAC, SE, 65, IAC, SE]]).out == [65]
  {
    var s := [IAC, SB, IAC, IAC, SE, 65, IAC, SE];
    RunOne(START, s);
    var tail := [65, IAC, SE];
    assert s == Encode(Subnegotiation([IAC])) + tail;
    FeedToken(START, Subnegotiation([IAC]));
    FeedConcat(START, Encode(Subnegotiation([IAC])), tail);
    assert Feed(START, Encode(Subnegotiation([IAC]))) == START;
    assert tail == [65] + Encode(Command(SE));
    FeedConcat(START, [65], Encode(Command(SE)));
    FeedOne(START, 65);
    FeedToken(Config(Normal, [65], []), Command(SE));
    assert Feed(START, [65]) == Config(Normal, [65], []);
    assert Feed(START, s) == Config(Normal, [65], []);
  }
}
