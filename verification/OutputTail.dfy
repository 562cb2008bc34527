/** The job-output tail reader: a backwards block reader against the whole-file form. */
module OutputTail {
  import opened Common

  const LF: byte := 10
  const CR: byte := 13

  /** The lines a file opened in text mode yields: LF, CR and CRLF each end a line, and text after the last
      terminator is a line of its own.  This is the whole-file form, written without the two replacement passes. */
  function TextLines(s: bytes): (lines: seq<bytes>)
    ensures lines == [] <==> s == []
  {
    if s == [] then []
    else if s[0] == CR && |s| > 1 && s[1] == LF then [[]] + TextLines(s[2..])
    else if s[0] == LF || s[0] == CR then [[]] + TextLines(s[1..])
    else Prepend(s[0], TextLines(s[1..]))
  }

  /** Records as the worker's log writer appends them, each any octets and then LF. */
  function Written(records: seq<bytes>): bytes {
    if records == [] then [] else records[0] + [LF] + Written(records[1..])
  }

  /** The lines of each record, in order. */
  function LinesWritten(records: seq<bytes>): seq<bytes> {
    if records == [] then [] else TextLines(records[0] + [LF]) + LinesWritten(records[1..])
  }

  /** Whatever the device sent, no line runs across two records: each record is read back as its own lines. */
  lemma {:induction false} RecordsReadBack(records: seq<bytes>)
    ensures TextLines(Written(records)) == LinesWritten(records)
  {
    if records != [] {
      LinesApart(records[0] + [LF], Written(records[1..]));
      RecordsReadBack(records[1..]);
    }
  }

  ghost predicate Apart(t: bytes, rest: bytes) {
    TextLines(t + rest) == TextLines(t) + TextLines(rest)
  }

  lemma ApartAfterCRLF(t: bytes, rest: bytes)
    requires |t| > 1 && t[0] == CR && t[1] == LF && Apart(t[2..], rest)
    ensures Apart(t, rest)
  {
    assert (t + rest)[2..] == t[2..] + rest;
    Assoc([[]], TextLines(t[2..]), TextLines(rest));
  }

  lemma ApartAfterOctet(t: bytes, rest: bytes)
    requires |t| > 1 && !(t[0] == CR && t[1] == LF) && Apart(t[1..], rest)
    ensures Apart(t, rest)
  {
    assert (t + rest)[1..] == t[1..] + rest;
    if t[0] == LF || t[0] == CR {
      Assoc([[]], TextLines(t[1..]), TextLines(rest));
    } else {
      PrependApart(t[0], TextLines(t[1..]), TextLines(rest));
    }
  }

  /** Text after an LF starts a new line. */
  lemma {:induction false} LinesApart(t: bytes, rest: bytes)
    requires EndsWithLF(t)
    ensures Apart(t, rest)
  {
    if |t| == 1 {
      assert (t + rest)[1..] == rest && t[1..] == [];
    } else if t[0] == CR && t[1] == LF {
      if |t| > 2 {
        LinesApart(t[2..], rest);
      } else {
        assert t[2..] == [] && t[2..] + rest == rest;
      }
      ApartAfterCRLF(t, rest);
    } else {
      LinesApart(t[1..], rest);
      ApartAfterOctet(t, rest);
    }
  }

  lemma PrependApart(b: byte, lines: seq<bytes>, more: seq<bytes>)
    requires lines != []
    ensures Prepend(b, lines + more) == Prepend(b, lines) + more
  {
  }

  /** Records without a line end of their own are read back one line each. */
  lemma {:induction false} PlainRecordsReadBack(records: seq<bytes>)
    requires forall i | 0 <= i < |records| :: LF !in records[i] && CR !in records[i]
    ensures TextLines(Written(records)) == records
  {
    if records != [] {
      PlainRecordsReadBack(records[1..]);
      FirstLine(records[0], Written(records[1..]));
    }
  }

  lemma {:induction false} FirstLine(line: bytes, rest: bytes)
    requires LF !in line && CR !in line
    ensures TextLines(line + [LF] + rest) == [line] + TextLines(rest)
  {
    var s := line + [LF] + rest;
    if line == [] {
      assert s[1..] == rest;
    } else {
      FirstLine(line[1..], rest);
      assert s[1..] == line[1..] + [LF] + rest;
      assert [line[0]] + line[1..] == line;
    }
  }

  function Prepend(b: byte, lines: seq<bytes>): seq<bytes> {
    if lines == [] then [[b]] else [[b] + lines[0]] + lines[1..]
  }

  function LastN<T>(s: seq<T>, n: nat): seq<T> {
    if |s| > n then s[|s| - n..] else s
  }

  /** data.count(b"\n") */
  function CountLF(s: bytes): nat {
    if s == [] then 0 else (if s[0] == LF then 1 else 0) + CountLF(s[1..])
  }

  /** text.replace("\r\n", "\n") */
  function ReplaceCRLF(s: bytes): bytes {
    if s == [] then []
    else if s[0] == CR && |s| > 1 && s[1] == LF then [LF] + ReplaceCRLF(s[2..])
    else [s[0]] + ReplaceCRLF(s[1..])
  }

  /** text.replace("\r", "\n") */
  function ReplaceCR(s: bytes): bytes {
    if s == [] then [] else [if s[0] == CR then LF else s[0]] + ReplaceCR(s[1..])
  }

  /** text.split("\n") */
  function Split(s: bytes): (lines: seq<bytes>)
    ensures lines != []
    ensures forall i | 0 <= i < |lines| :: LF !in lines[i]
  {
    if s == [] then [[]]
    else if s[0] == LF then [[]] + Split(s[1..])
    else Prepend(s[0], Split(s[1..]))
  }

  /** line.rstrip("\n") */
  function RStripLF(line: bytes): bytes {
    if line != [] && line[|line| - 1] == LF then RStripLF(line[..|line| - 1]) else line
  }

  function Normalize(s: bytes): bytes {
    ReplaceCR(ReplaceCRLF(s))
  }

  predicate EndsWithLF(s: bytes) {
    s != [] && s[|s| - 1] == LF
  }

  /** One step of both replacement passes: a terminator becomes one LF. */
  lemma NormalizeStep(s: bytes)
    requires s != []
    ensures s[0] == CR && |s| > 1 && s[1] == LF ==> Normalize(s) == [LF] + Normalize(s[2..])
    ensures !(s[0] == CR && |s| > 1 && s[1] == LF) ==>
              Normalize(s) == [if s[0] == CR then LF else s[0]] + Normalize(s[1..])
  {
    var rest := if s[0] == CR && |s| > 1 && s[1] == LF then s[2..] else s[1..];
    assert ReplaceCRLF(s)[1..] == ReplaceCRLF(rest);
  }

  /** The replacement passes leave no CR and do not change the lines. */
  lemma {:induction false} NormalizeKeepsLines(s: bytes)
    ensures CR !in Normalize(s)
    ensures TextLines(Normalize(s)) == TextLines(s)
  {
    if s != [] {
      NormalizeStep(s);
      var rest := if s[0] == CR && |s| > 1 && s[1] == LF then s[2..] else s[1..];
      NormalizeKeepsLines(rest);
      assert Normalize(s)[1..] == Normalize(rest);
    }
  }

  /** Without CRs, splitting at LF yields the lines, and one empty piece more after a final LF. */
  lemma {:induction false} SplitIsTextLines(t: bytes)
    requires t != [] && CR !in t
    ensures Split(t) == TextLines(t) + (if EndsWithLF(t) then [[]] else [])
  {
    if |t| == 1 {
      var empty: seq<bytes> := [[]];
      assert Split(t[1..]) == empty && TextLines(t[1..]) == [];
      assert Prepend(t[0], empty) == [t] by {
        assert [t[0]] + empty[0] == t && empty[1..] == [];
      }
      assert Prepend(t[0], []) == [t] by {
        assert [t[0]] == t;
      }
    } else {
      SplitIsTextLines(t[1..]);
      assert EndsWithLF(t) <==> EndsWithLF(t[1..]);
    }
  }

  lemma {:induction false} CountLFConcat(a: bytes, b: bytes)
    ensures CountLF(a + b) == CountLF(a) + CountLF(b)
  {
    if a == [] {
      assert a + b == b;
    } else {
      assert (a + b)[1..] == a[1..] + b;
      CountLFConcat(a[1..], b);
    }
  }

  lemma BlockStep(file: bytes, pos: nat, k: nat)
    requires pos <= k <= |file|
    ensures file[pos..k] + file[k..] == file[pos..]
    ensures CountLF(file[pos..]) == CountLF(file[pos..k]) + CountLF(file[k..])
  {
    CountLFConcat(file[pos..k], file[k..]);
    assert file[pos..k] + file[k..] == file[pos..];
  }

  /** Every line feed ends a line. */
  lemma {:induction false} LinesPerLF(s: bytes)
    ensures |TextLines(s)| >= CountLF(s)
  {
    if s != [] {
      if s[0] == CR && |s| > 1 && s[1] == LF {
        assert s[1..][1..] == s[2..];
        LinesPerLF(s[2..]);
      } else {
        LinesPerLF(s[1..]);
      }
    }
  }

  ghost predicate IsSuffix<T>(a: seq<T>, b: seq<T>) {
    |a| <= |b| && b[|b| - |a|..] == a
  }

  lemma SuffixGrows(a: seq<bytes>, b: seq<bytes>, x: byte)
    requires IsSuffix(a, b) && |a| < |b|
    ensures IsSuffix(a, [[]] + b)
    ensures |Prepend(x, b)| == |b| && IsSuffix(a, Prepend(x, b))
  {
  }

  /** Reading from the middle of a file, even between a CR and its LF, spoils at most the first line. */
  lemma {:induction false} OnlyFirstLineIsPartial(p: bytes, s: bytes)
    requires s != []
    ensures |TextLines(p + s)| >= |TextLines(s)|
    ensures IsSuffix(TextLines(s)[1..], TextLines(p + s))
  {
    if p == [] {
      assert p + s == s;
    } else {
      var whole := p + s;
      assert whole[1..] == p[1..] + s;
      if whole[0] == CR && whole[1] == LF {
        if |p| == 1 {
          assert whole[2..] == s[1..];
          assert TextLines(s) == [[]] + TextLines(s[1..]);
        } else {
          assert whole[2..] == p[2..] + s;
          OnlyFirstLineIsPartial(p[2..], s);
          SuffixGrows(TextLines(s)[1..], TextLines(whole[2..]), CR);
        }
      } else {
        OnlyFirstLineIsPartial(p[1..], s);
        SuffixGrows(TextLines(s)[1..], TextLines(whole[1..]), whole[0]);
      }
    }
  }

  /** Once more than `tail` line feeds are loaded, dropping the first piece leaves the last `tail` lines of the file. */
  lemma TailFromSuffix(file: bytes, pos: nat, tail: nat)
    requires pos < |file| && tail > 0 && CountLF(file[pos..]) > tail
    ensures |TextLines(file[pos..])| > 1
    ensures |TextLines(file[pos..])[1..]| >= tail
    ensures LastN(TextLines(file[pos..])[1..], tail) == LastN(TextLines(file), tail)
  {
    var data := file[pos..];
    LinesPerLF(data);
    assert file == file[..pos] + data;
    OnlyFirstLineIsPartial(file[..pos], data);
    LastOfSuffix(TextLines(data)[1..], TextLines(file), tail);
  }

  lemma LastOfSuffix<T>(a: seq<T>, b: seq<T>, n: nat)
    requires IsSuffix(a, b) && |a| >= n
    ensures LastN(a, n) == LastN(b, n)
  {
    assert b == b[..|b| - |a|] + a;
  }

  lemma RStripIsIdentity(lines: seq<bytes>)
    requires forall i | 0 <= i < |lines| :: LF !in lines[i]
    ensures seq(|lines|, i requires 0 <= i < |lines| => RStripLF(lines[i])) == lines
  {
  }

  /** The loop that reads blocks from the end.  It loads a suffix of the file, the whole of it or one with more than
      `tail` line feeds, and never reads a block once that many are loaded. */
  method ReadBlocks(file: bytes, tail: nat, block: nat) returns (data: bytes, pos: nat)
    requires block > 0
    ensures pos <= |file| && data == file[pos..]
    ensures pos == 0 || CountLF(data) > tail
    ensures forall k | pos + block <= k <= |file| :: CountLF(file[k..]) <= tail
  {
    pos := |file|;
    var chunks: seq<bytes> := [];
    var newlines := 0;
    while pos > 0 && newlines <= tail
      invariant 0 <= pos <= |file|
      invariant Join(chunks) == file[pos..]
      invariant newlines == CountLF(file[pos..])
      invariant forall k | pos + block <= k <= |file| :: CountLF(file[k..]) <= tail
    {
      var step := if block < pos then block else pos;
      forall k | pos <= k <= |file| ensures CountLF(file[k..]) <= tail {
        BlockStep(file, pos, k);
      }
      var chunk := file[pos - step..pos];
      BlockStep(file, pos - step, pos);
      pos := pos - step;
      chunks := [chunk] + chunks;
      assert chunks[1..] + [] == chunks[1..];
      newlines := newlines + CountLF(chunk);
    }
    data := Join(chunks);
  }

  /** The lines of the loaded suffix: split, drop the partial first piece, drop the empty last one. */
  method LinesOf(data: bytes, partial: bool) returns (lines: seq<bytes>)
    requires data != [] && (partial ==> |TextLines(data)| > 1)
    ensures lines == if partial then TextLines(data)[1..] else TextLines(data)
    ensures forall i | 0 <= i < |lines| :: LF !in lines[i]
  {
    var text := Normalize(data);
    NormalizeKeepsLines(data);
    SplitIsTextLines(text);
    lines := Split(text);
    if partial {
      lines := lines[1..];
    }
    if lines != [] && lines[|lines| - 1] == [] && EndsWithLF(text) {
      lines := lines[..|lines| - 1];
    }
  }

  /** read_output_tail.  A tail below 1 (or absent) asks for every line; a missing file has none. */
  method ReadOutputTail(file: Option<bytes>, tail: int, block: nat) returns (lines: seq<bytes>)
    requires block > 0
    ensures file.None? ==> lines == []
    ensures file.Some? && tail < 1 ==> lines == TextLines(file.value)
    ensures file.Some? && tail >= 1 ==> lines == LastN(TextLines(file.value), tail)
  {
    if file.None? {
      return [];
    }
    if tail < 1 {
      return TextLines(file.value);
    }
    if |file.value| == 0 {
      return [];
    }
    var data, pos := ReadBlocks(file.value, tail, block);
    if pos > 0 {
      assert data != [];
      TailFromSuffix(file.value, pos, tail);
    }
    lines := LinesOf(data, pos > 0);
    assert LastN(lines, tail) == LastN(TextLines(file.value), tail) by {
      if pos == 0 { assert data == file.value; }
    }
    if |lines| > tail {
      lines := lines[|lines| - tail..];
    }
    RStripIsIdentity(lines);
    lines := seq(|lines|, i requires 0 <= i < |lines| => RStripLF(lines[i]));
  }
}
