/** What the chunked decoder promises: cuts in the input do not matter, memory is bounded, and the
 messages it accepts are exactly those of the chunked grammar. */
module ChunkedProofs {
  import opened Results
  import opened Text
  import opened Limits
  import opened ChunkLine
  import opened Chunked

  // ---------- Segmentation ----------

  /**
   The one place where a cut shows: a size line of exactly the allowed length whose CR has arrived
   and whose LF has not. The length test on an unfinished line counts that CR.
   */
  predicate LoneCr(lim: ResponseLimits, run: Run) {
    && run.status == Failed(ResponseLimitExceeded) && run.control.stage.SizeLine?
    && |run.rest| == lim.maxChunkLine + 1 && run.rest[lim.maxChunkLine] == '\r' && Find(run.rest, CRLF) < 0
  }

  /** What the call on `a + b` does, told from the call on `a`. */
  predicate CutAgrees(lim: ResponseLimits, c: Control, a: string, b: string, body: string) {
    var one, all := Decode(lim, c, a, body), Decode(lim, c, a + b, body);
    && (!one.status.Failed? ==> all == Decode(lim, one.control, one.rest + b, one.body))
    && (one.status.Failed? && !LoneCr(lim, one) ==> all.status == one.status)
  }

  lemma CutPast(a: string, b: string, n: nat)
    requires |a| <= n <= |a| + |b|
    ensures (a + b)[n..] == b[n - |a|..] && (a + b)[..n] == a + b[..n - |a|]
  {
  }

  lemma {:induction false} DataSplit(lim: ResponseLimits, c: Control, a: string, b: string, body: string)
    requires c.stage.Data?
    ensures CutAgrees(lim, c, a, b, body)
    decreases |a|, 1, 0
  {
    hide Decode;
    DecodeTurn(lim, c, a, body);
    DecodeTurn(lim, c, a + b, body);
    var n := c.remaining;
    if n <= |a| {
      CutGlued(a, b, n);
      DecodeSplit(lim, c.(stage := DataCrlf, remaining := 0), a[n..], b, body + a[..n]);
    } else {
      DecodeTurn(lim, c.(remaining := n - |a|), b, body + a);
      assert "" + b == b;
      Regroup(body, a, b);
      if n <= |a + b| {
        CutPast(a, b, n);
        Regroup(body, a, b[..n - |a|]);
      }
    }
  }

  lemma {:induction false} TrailersSplit(lim: ResponseLimits, c: Control, a: string, b: string, body: string)
    requires c.stage.Trailers?
    ensures CutAgrees(lim, c, a, b, body)
    decreases |a|, 0, 0
  {
    hide IsTrailerLine, Find, Decode;
    DecodeTurn(lim, c, a, body);
    DecodeTurn(lim, c, a + b, body);
    var i := Find(a, CRLF);
    FindExtend(a, b, CRLF);
    if i >= 0 {
      CutGlued(a, b, i);
      CutGlued(a, b, i + 2);
      DecodeTurn(lim, c.(stage := Finished, trailerSeen := c.trailerSeen + i + 2), a[i + 2..] + b, body);
      DecodeSplit(lim, c.(trailerSeen := c.trailerSeen + i + 2), a[i + 2..], b, body);
    }
  }

  /** Decoding `a` and then `b` is decoding `a + b`, in every field and with every error code. */
  lemma {:induction false} DecodeSplit(lim: ResponseLimits, c: Control, a: string, b: string, body: string)
    ensures CutAgrees(lim, c, a, b, body)
    decreases |a|, if c.stage.Data? then 1 else 0, 1
  {
    hide ChunkSize, IsTrailerLine, Find, Decode;
    DecodeTurn(lim, c, a, body);
    DecodeTurn(lim, c, a + b, body);
    match c.stage
    case SizeLine => SizeLineSplit(lim, c, a, b, body);
    case Data => DataSplit(lim, c, a, b, body);
    case DataCrlf =>
      if |a| >= 2 {
        CutGlued(a, b, 2);
        DecodeSplit(lim, c.(stage := SizeLine), a[2..], b, body);
      }
    case Trailers => TrailersSplit(lim, c, a, b, body);
    case Finished =>
  }

  lemma {:induction false} SizeLineSplit(lim: ResponseLimits, c: Control, a: string, b: string, body: string)
    requires c.stage.SizeLine?
    ensures CutAgrees(lim, c, a, b, body)
    decreases |a|, 0, 0
  {
    hide ChunkSize, Find, Decode;
    DecodeTurn(lim, c, a, body);
    DecodeTurn(lim, c, a + b, body);
    var i, j := Find(a, CRLF), Find(a + b, CRLF);
    FindExtend(a, b, CRLF);
    FindRun(a + b, CRLF);
    if i < 0 {
      assert 0 <= j == |a| - 1 ==> (a + b)[j] == CRLF[0];
    } else {
      CutGlued(a, b, i);
      CutGlued(a, b, i + 2);
      if ChunkSize(a[..i]).Ok? {
        var size := ChunkSize(a[..i]).value;
        DecodeSplit(lim, c.(stage := if size == 0 then Trailers else Data, remaining := size), a[i + 2..], b, body);
      }
    }
  }

  lemma ZeroIsSizeLine()
    ensures ChunkSize("0") == Ok(0)
  {
    assert NatUpTo("0", 1, 16) == NatUpTo("0", 0, 16) * 16 + DigitOf("0"[0]);
    UntilIs("0", 0, ";", 1);
    OwsStartIs("0", 0, 1, 1);
    assert "0"[..1] == "0";
  }

  lemma FindShort(s: string)
    requires s == "0" || s == "0\r"
    ensures Find(s, CRLF) < 0
  {
    FindRun(s, CRLF);
    assert s[0] != CRLF[0];
  }

  /** The decoder never reports a forbidden body: that is for the parser around it. */
  lemma {:induction false} DecodeErrors(lim: ResponseLimits, c: Control, input: string, body: string)
    ensures Decode(lim, c, input, body).status != Failed(MalformedResponse)
    decreases |input|, if c.stage.Data? then 1 else 0
  {
    hide IsTrailerLine, Find, Number, ExtensionsFrom, Until, Decode;
    DecodeTurn(lim, c, input, body);
    match c.stage
    case SizeLine =>
      var i := Find(input, CRLF);
      if i >= 0 && ChunkSize(input[..i]).Ok? {
        var size := ChunkSize(input[..i]).value;
        DecodeErrors(lim, c.(stage := if size == 0 then Trailers else Data, remaining := size), input[i + 2..], body);
      }
    case Data =>
      if c.remaining <= |input| {
        DecodeErrors(lim, c.(stage := DataCrlf, remaining := 0), input[c.remaining..], body + input[..c.remaining]);
      }
    case DataCrlf =>
      if |input| >= 2 {
        DecodeErrors(lim, c.(stage := SizeLine), input[2..], body);
      }
    case Trailers =>
      var i := Find(input, CRLF);
      if i > 0 {
        DecodeErrors(lim, c.(trailerSeen := c.trailerSeen + i + 2), input[i + 2..], body);
      }
    case Finished =>
  }

  lemma LacksCrlf(s: string)
    requires |s| < 2
    ensures Find(s, CRLF) < 0
  {
  }

  lemma OneIsSizeLine()
    ensures ChunkSize("1") == Ok(1)
  {
    assert NatUpTo("1", 1, 16) == NatUpTo("1", 0, 16) * 16 + DigitOf("1"[0]);
    UntilIs("1", 0, ";", 1);
    OwsStartIs("1", 0, 1, 1);
    assert "1"[..1] == "1";
  }

  /** The call on a one-byte chunk whose CRLF has not arrived, and on one whose CRLF is wrong. */
  lemma OneByteChunk(lim: ResponseLimits)
    requires lim.maxChunkLine >= 1 && lim.maxBody >= 1
    ensures Decode(lim, START, "1\r\na", "") == Run(NeedMore, Control(DataCrlf, 0, 0), "", "a")
    ensures Decode(lim, START, "1\r\naxx", "").status == Failed(InvalidChunkFraming)
  {
    hide Find, ChunkSize;
    OneIsSizeLine();
    LacksCrlf("1");
    FindLine("1", "a");
    FindLine("1", "axx");
    CutLine("1", "a");
    CutLine("1", "axx");
    assert "1\r\na" == "1" + (CRLF + "a") && "1\r\naxx" == "1" + (CRLF + "axx");
    assert "a"[1..] == "" && "a"[..1] == "a" && "axx"[1..] == "xx" && "" + "a" == "a";
  }

  // ---------- Memory ----------

  /** What is decoded and what is announced never exceed the limits. */
  predicate Within(lim: ResponseLimits, c: Control, decoded: nat) {
    decoded + c.remaining <= lim.maxBody && c.trailerSeen <= lim.maxTrailer
  }

  /** How much undecoded input a call that needs more may keep. */
  predicate Retained(lim: ResponseLimits, c: Control, rest: string) {
    match c.stage
    case SizeLine => |rest| <= lim.maxChunkLine
    case Data => rest == "" && c.remaining > 0
    case DataCrlf => |rest| <= 1
    case Trailers => c.trailerSeen + |rest| <= lim.maxTrailer
    case Finished => false
  }

  /** Completion is the last stage, the body only grows, no byte is made up, and the bounds are kept. */
  predicate KeepsShape(lim: ResponseLimits, c: Control, input: string, body: string) {
    var run := Decode(lim, c, input, body);
    && (run.status.Complete? <==> run.control.stage.Finished?)
    && body <= run.body && |run.rest| + |run.body| <= |input| + |body|
    && (Within(lim, c, |body|) ==>
       Within(lim, run.control, |run.body|) && (run.status.NeedMore? ==> Retained(lim, run.control, run.rest)))
  }

  lemma FinishedKeeps(lim: ResponseLimits, c: Control, input: string, body: string)
    requires c.stage.Finished?
    ensures KeepsShape(lim, c, input, body)
  {
    hide Decode;
    DecodeTurn(lim, c, input, body);
  }

  lemma PrefixBelow(a: string, b: string, whole: string)
    requires a + b <= whole
    ensures a <= whole
  {
  }

  lemma {:induction false} DataCrlfKeeps(lim: ResponseLimits, c: Control, input: string, body: string)
    requires c.stage.DataCrlf?
    ensures KeepsShape(lim, c, input, body)
    decreases |input|, 0, 0
  {
    hide Decode;
    DecodeTurn(lim, c, input, body);
    if |input| >= 2 {
      DecodeKeeps(lim, c.(stage := SizeLine), input[2..], body);
    }
  }

  lemma {:induction false} TrailersKeeps(lim: ResponseLimits, c: Control, input: string, body: string)
    requires c.stage.Trailers?
    ensures KeepsShape(lim, c, input, body)
    decreases |input|, 0, 0
  {
    hide IsTrailerLine, Find, Decode;
    DecodeTurn(lim, c, input, body);
    var i := Find(input, CRLF);
    if i > 0 {
      DecodeKeeps(lim, c.(trailerSeen := c.trailerSeen + i + 2), input[i + 2..], body);
    }
  }

  lemma {:induction false} SizeLineKeeps(lim: ResponseLimits, c: Control, input: string, body: string)
    requires c.stage.SizeLine?
    ensures KeepsShape(lim, c, input, body)
    decreases |input|, 0, 0
  {
    hide ChunkSize, Find, Decode;
    DecodeTurn(lim, c, input, body);
    var i := Find(input, CRLF);
    if i >= 0 && ChunkSize(input[..i]).Ok? {
      var size := ChunkSize(input[..i]).value;
      DecodeKeeps(lim, c.(stage := if size == 0 then Trailers else Data, remaining := size), input[i + 2..], body);
    }
  }

  lemma {:induction false} DecodeKeeps(lim: ResponseLimits, c: Control, input: string, body: string)
    ensures KeepsShape(lim, c, input, body)
    decreases |input|, if c.stage.Data? then 1 else 0, 1
  {
    hide KeepsShape;
    match c.stage
    case SizeLine => SizeLineKeeps(lim, c, input, body);
    case Data => DataKeeps(lim, c, input, body);
    case DataCrlf => DataCrlfKeeps(lim, c, input, body);
    case Trailers => TrailersKeeps(lim, c, input, body);
    case Finished => FinishedKeeps(lim, c, input, body);
  }

  lemma {:induction false} DataKeeps(lim: ResponseLimits, c: Control, input: string, body: string)
    requires c.stage.Data?
    ensures KeepsShape(lim, c, input, body)
    decreases |input|, 1, 0
  {
    hide Decode;
    DecodeTurn(lim, c, input, body);
    if c.remaining <= |input| {
      var next, data := c.(stage := DataCrlf, remaining := 0), input[..c.remaining];
      DecodeKeeps(lim, next, input[c.remaining..], body + data);
      PrefixBelow(body, data, Decode(lim, next, input[c.remaining..], body + data).body);
    }
  }

  lemma DecodeShape(lim: ResponseLimits, c: Control, input: string, body: string)
    ensures var run := Decode(lim, c, input, body);
            && (run.status.Complete? <==> run.control.stage.Finished?)
            && body <= run.body && |run.rest| + |run.body| <= |input| + |body|
  {
    hide Decode;
    DecodeKeeps(lim, c, input, body);
  }

  /** Within the limits before the call, within the limits after it, and little input is kept. */
  lemma DecodeBounded(lim: ResponseLimits, c: Control, input: string, body: string)
    requires Within(lim, c, |body|)
    ensures var run := Decode(lim, c, input, body);
            Within(lim, run.control, |run.body|) && (run.status.NeedMore? ==> Retained(lim, run.control, run.rest))
  {
    hide Decode;
    DecodeKeeps(lim, c, input, body);
  }

  // ---------- The grammar ----------

  datatype Chunk = Chunk(line: string, data: string)

  /** A chunked body: chunks, the zero-size line, trailers. */
  datatype Coding = Coding(chunks: seq<Chunk>, last: string, trailers: seq<string>)

  function ChunksThen(chunks: seq<Chunk>, tail: string): string {
    if chunks == [] then tail
    else chunks[0].line + (CRLF + (chunks[0].data + (CRLF + ChunksThen(chunks[1..], tail))))
  }

  /** The bytes of `k` followed by `rest`. */
  function CodingThen(k: Coding, rest: string): string {
    ChunksThen(k.chunks, k.last + (CRLF + LinesThen(k.trailers, CRLF + rest)))
  }

  lemma {:induction false} ChunksThenGlue(chunks: seq<Chunk>, t: string, a: string)
    ensures ChunksThen(chunks, t + a) == ChunksThen(chunks, t) + a
  {
    if chunks != [] {
      ChunksThenGlue(chunks[1..], t, a);
      var c, rest := chunks[0], ChunksThen(chunks[1..], t);
      Regroup(CRLF, rest, a);
      Regroup(c.data, CRLF + rest, a);
      Regroup(CRLF, c.data + (CRLF + rest), a);
      Regroup(c.line, CRLF + (c.data + (CRLF + rest)), a);
    }
  }

  function ChunksBody(chunks: seq<Chunk>): string {
    if chunks == [] then "" else chunks[0].data + ChunksBody(chunks[1..])
  }

  ghost predicate IsSizeLineWithin(lim: ResponseLimits, line: string, size: nat) {
    Find(line, CRLF) < 0 && |line| <= lim.maxChunkLine && IsSizeLine(line, size)
  }

  ghost predicate AreChunks(lim: ResponseLimits, chunks: seq<Chunk>) {
    forall i :: 0 <= i < |chunks| ==> chunks[i].data != "" && IsSizeLineWithin(lim, chunks[i].line, |chunks[i].data|)
  }

  predicate AreTrailers(lines: seq<string>) {
    forall i :: 0 <= i < |lines| ==> Find(lines[i], CRLF) < 0 && IsTrailerLine(lines[i])
  }

  /** `k` is a chunked body within the limits, when `before` bytes of body precede it. */
  ghost predicate IsCoding(lim: ResponseLimits, k: Coding, before: nat) {
    && AreChunks(lim, k.chunks) && IsSizeLineWithin(lim, k.last, 0) && AreTrailers(k.trailers)
    && before + |ChunksBody(k.chunks)| <= lim.maxBody
    && LinesSize(k.trailers) + 2 <= lim.maxTrailer
  }

  // ---------- Soundness ----------

  lemma TrailerAccepted(lim: ResponseLimits, c: Control, s: string, body: string)
    requires c.stage.Trailers? && Decode(lim, c, s, body).status.Complete?
    ensures var i, run := Find(s, CRLF), Decode(lim, c, s, body);
            && i >= 0 && c.trailerSeen + i + 2 <= lim.maxTrailer
            && if i == 0 then run.rest == s[2..] && run.body == body
               else && IsTrailerLine(s[..i])
                    && run == Decode(lim, c.(trailerSeen := c.trailerSeen + i + 2), s[i + 2..], body)
  {
    hide IsTrailerLine, Find, Decode;
    DecodeTurn(lim, c, s, body);
  }

  lemma {:induction false} TrailersSound(lim: ResponseLimits, c: Control, s: string, body: string)
    returns (lines: seq<string>)
    requires c.stage.Trailers? && Decode(lim, c, s, body).status.Complete?
    ensures var run := Decode(lim, c, s, body);
            && AreTrailers(lines) && s == LinesThen(lines, CRLF + run.rest) && run.body == body
            && c.trailerSeen + LinesSize(lines) + 2 <= lim.maxTrailer
    decreases |s|
  {
    hide Decode, IsTrailerLine, Find;
    var i := Find(s, CRLF);
    TrailerAccepted(lim, c, s, body);
    LineLacksCrlf(s);
    if i == 0 {
      lines := [];
      assert s[..0] + (CRLF + s[2..]) == CRLF + s[2..];
    } else {
      var rest := TrailersSound(lim, c.(trailerSeen := c.trailerSeen + i + 2), s[i + 2..], body);
      lines := [s[..i]] + rest;
      assert lines[1..] == rest;
    }
  }

  /** A data stage that leads to completion or to a failing size line: `size` bytes, CRLF, and the next size line. */
  lemma DataThenCrlf(lim: ResponseLimits, size: nat, t: string, body: string)
    requires size > 0
    requires var run := Decode(lim, Control(Data, size, 0), t, body);
             run.status.Complete? || (run.status.Failed? && run.control.stage.SizeLine?)
    ensures size + 2 <= |t| && t == t[..size] + (CRLF + t[size + 2..])
    ensures Decode(lim, Control(Data, size, 0), t, body) == Decode(lim, START, t[size + 2..], body + t[..size])
  {
    hide IsTrailerLine, Find, ChunkSize, Decode;
    DecodeTurn(lim, Control(Data, size, 0), t, body);
    DecodeTurn(lim, Control(DataCrlf, 0, 0), t[size..], body + t[..size]);
    var rest := t[size..];
    assert rest[0] == '\r' && rest[1] == '\n';
    CutSum(t, size, 2);
    assert rest == CRLF + rest[2..];
    CutOnce(t, size);
  }

  lemma ConsChunk(lim: ResponseLimits, c: Chunk, k: Coding, before: nat)
    requires c.data != "" && IsSizeLineWithin(lim, c.line, |c.data|) && IsCoding(lim, k, before + |c.data|)
    ensures IsCoding(lim, Coding([c] + k.chunks, k.last, k.trailers), before)
    ensures ChunksBody([c] + k.chunks) == c.data + ChunksBody(k.chunks)
    ensures forall rest :: CodingThen(Coding([c] + k.chunks, k.last, k.trailers), rest)
                           == c.line + (CRLF + (c.data + (CRLF + CodingThen(k, rest))))
  {
    hide IsSizeLineWithin, IsTrailerLine, Find;
    assert ([c] + k.chunks)[1..] == k.chunks;
  }

  lemma {:induction false} ChunksSound(lim: ResponseLimits, s: string, body: string) returns (k: Coding)
    requires |body| <= lim.maxBody && Decode(lim, START, s, body).status.Complete?
    ensures var run := Decode(lim, START, s, body);
            IsCoding(lim, k, |body|) && s == CodingThen(k, run.rest) && run.body == body + ChunksBody(k.chunks)
    decreases |s|
  {
    hide IsTrailerLine, Find, ChunkSize, IsSizeLine, Decode;
    DecodeTurn(lim, START, s, body);
    var i := Find(s, CRLF);
    LineLacksCrlf(s);
    var line, t := s[..i], s[i + 2..];
    SizeLineSound(line);
    var size := ChunkSize(line).value;
    if size == 0 {
      var lines := TrailersSound(lim, Control(Trailers, 0, 0), t, body);
      k := Coding([], line, lines);
      assert body + "" == body;
    } else {
      DataThenCrlf(lim, size, t, body);
      var data, u := t[..size], t[size + 2..];
      var k' := ChunksSound(lim, u, body + data);
      k := Coding([Chunk(line, data)] + k'.chunks, k'.last, k'.trailers);
      ConsChunk(lim, Chunk(line, data), k', |body|);
      Regroup(body, data, ChunksBody(k'.chunks));
    }
  }

  // ---------- Completeness ----------

  lemma TrailerLineIsNotEmpty(line: string)
    requires IsTrailerLine(line)
    ensures line != ""
  {
  }

  lemma {:induction false} TrailersComplete(lim: ResponseLimits, c: Control, lines: seq<string>, rest: string,
      body: string)
    requires c.stage.Trailers? && AreTrailers(lines) && c.trailerSeen + LinesSize(lines) + 2 <= lim.maxTrailer
    ensures Decode(lim, c, LinesThen(lines, CRLF + rest), body)
            == Run(Complete, Control(Finished, c.remaining, c.trailerSeen + LinesSize(lines) + 2), rest, body)
    decreases |lines|
  {
    hide IsTrailerLine, Find, Decode;
    DecodeTurn(lim, c, LinesThen(lines, CRLF + rest), body);
    if lines == [] {
      FindNothing();
      FindLine("", rest);
      assert "" + (CRLF + rest) == CRLF + rest && (CRLF + rest)[2..] == rest;
    } else {
      var tail := LinesThen(lines[1..], CRLF + rest);
      FindLine(lines[0], tail);
      CutLine(lines[0], tail);
      TrailerLineIsNotEmpty(lines[0]);
      TrailersComplete(lim, c.(trailerSeen := c.trailerSeen + |lines[0]| + 2), lines[1..], rest, body);
    }
  }

  lemma DataComplete(lim: ResponseLimits, data: string, next: string, body: string)
    ensures Decode(lim, Control(Data, |data|, 0), data + (CRLF + next), body) == Decode(lim, START, next, body + data)
  {
    hide IsTrailerLine, Find, ChunkSize, Decode;
    var s := data + (CRLF + next);
    DecodeTurn(lim, Control(Data, |data|, 0), s, body);
    DecodeTurn(lim, Control(DataCrlf, 0, 0), CRLF + next, body + data);
    CutAtSeam(data, CRLF + next);
    CutAtSeam(CRLF, next);
    assert s[|data|..] == CRLF + next;
  }

  lemma {:induction false} ChunksComplete(lim: ResponseLimits, k: Coding, rest: string, body: string)
    requires IsCoding(lim, k, |body|)
    ensures var run := Decode(lim, START, CodingThen(k, rest), body);
            run.status.Complete? && run.rest == rest && run.body == body + ChunksBody(k.chunks)
    decreases |k.chunks|
  {
    hide IsTrailerLine, Find, ChunkSize, IsSizeLine, Decode;
    DecodeTurn(lim, START, CodingThen(k, rest), body);
    if k.chunks == [] {
      var tail := LinesThen(k.trailers, CRLF + rest);
      FindLine(k.last, tail);
      CutLine(k.last, tail);
      SizeLineComplete(k.last, 0);
      TrailersComplete(lim, Control(Trailers, 0, 0), k.trailers, rest, body);
      assert body + "" == body;
    } else {
      var c, k' := k.chunks[0], Coding(k.chunks[1..], k.last, k.trailers);
      var next := CodingThen(k', rest);
      var tail := c.data + (CRLF + next);
      FindLine(c.line, tail);
      CutLine(c.line, tail);
      SizeLineComplete(c.line, |c.data|);
      DataComplete(lim, c.data, next, body);
      ChunksComplete(lim, k', rest, body + c.data);
      Regroup(body, c.data, ChunksBody(k'.chunks));
    }
  }

  /** Whole chunks are decoded and the rest is met with their data put out. */
  lemma {:induction false} ChunksLead(lim: ResponseLimits, chunks: seq<Chunk>, tail: string, body: string)
    requires AreChunks(lim, chunks) && |body| + |ChunksBody(chunks)| <= lim.maxBody
    ensures Decode(lim, START, ChunksThen(chunks, tail), body) == Decode(lim, START, tail, body + ChunksBody(chunks))
    decreases |chunks|
  {
    hide Find, ChunkSize, IsSizeLine, Decode;
    if chunks == [] {
      assert body + "" == body;
    } else {
      var c, next := chunks[0], ChunksThen(chunks[1..], tail);
      DecodeTurn(lim, START, ChunksThen(chunks, tail), body);
      FindLine(c.line, c.data + (CRLF + next));
      CutLine(c.line, c.data + (CRLF + next));
      SizeLineComplete(c.line, |c.data|);
      DataComplete(lim, c.data, next, body);
      ChunksLead(lim, chunks[1..], tail, body + c.data);
      Regroup(body, c.data, ChunksBody(chunks[1..]));
    }
  }

  /**
   Sound and complete: a fresh decoder completes with body `body` and leftover `rest` exactly when
   the input is a chunked body within the limits, carrying `body`, followed by `rest`.
   */
  lemma DecodeExact(lim: ResponseLimits, s: string, body: string, rest: string)
    ensures (var run := Decode(lim, START, s, ""); run.status.Complete? && run.body == body && run.rest == rest)
            <==> exists k :: IsCoding(lim, k, 0) && s == CodingThen(k, rest) && body == ChunksBody(k.chunks)
  {
    hide Decode, IsCoding, CodingThen;
    var run := Decode(lim, START, s, "");
    if run.status.Complete? && run.body == body && run.rest == rest {
      var k := ChunksSound(lim, s, "");
      assert "" + ChunksBody(k.chunks) == ChunksBody(k.chunks);
    }
    if k :| IsCoding(lim, k, 0) && s == CodingThen(k, rest) && body == ChunksBody(k.chunks) {
      ChunksComplete(lim, k, rest, "");
      assert "" + ChunksBody(k.chunks) == ChunksBody(k.chunks);
    }
  }

  // ---------- Cuts, on the text ----------

  ghost predicate LoneCrParts(lim: ResponseLimits, text: string, before: nat, chunks: seq<Chunk>, line: string) {
    && AreChunks(lim, chunks) && before + |ChunksBody(chunks)| <= lim.maxBody
    && |line| == lim.maxChunkLine && Find(line + "\r", CRLF) < 0
    && text == ChunksThen(chunks, line + "\r")
  }

  /** Whole chunks, then a size line of exactly the allowed length (well formed or not), its CR, and no LF yet. */
  ghost predicate EndsAtLoneCr(lim: ResponseLimits, text: string) {
    exists chunks: seq<Chunk>, line: string :: LoneCrParts(lim, text, 0, chunks, line)
  }

  /** The trailer section never leads back to a size line. */
  lemma {:induction false} TrailersStay(lim: ResponseLimits, c: Control, s: string, body: string)
    requires c.stage.Trailers?
    ensures !Decode(lim, c, s, body).control.stage.SizeLine?
    decreases |s|
  {
    hide Decode, IsTrailerLine, Find;
    DecodeTurn(lim, c, s, body);
    var i := Find(s, CRLF);
    if i > 0 {
      TrailersStay(lim, c.(trailerSeen := c.trailerSeen + i + 2), s[i + 2..], body);
    }
  }

  lemma ConsLoneCr(lim: ResponseLimits, c: Chunk, chunks: seq<Chunk>, line: string, before: nat)
    requires c.data != "" && IsSizeLineWithin(lim, c.line, |c.data|)
    requires AreChunks(lim, chunks) && before + |c.data| + |ChunksBody(chunks)| <= lim.maxBody
    ensures AreChunks(lim, [c] + chunks) && before + |ChunksBody([c] + chunks)| <= lim.maxBody
    ensures var tail := line + "\r";
            ChunksThen([c] + chunks, tail) == c.line + (CRLF + (c.data + (CRLF + ChunksThen(chunks, tail))))
  {
    hide IsSizeLineWithin;
    assert ([c] + chunks)[1..] == chunks;
  }

  lemma {:induction false} LoneCrSound(lim: ResponseLimits, s: string, body: string)
    returns (chunks: seq<Chunk>, line: string)
    requires |body| <= lim.maxBody && LoneCr(lim, Decode(lim, START, s, body))
    ensures LoneCrParts(lim, s, |body|, chunks, line)
    decreases |s|
  {
    hide Find, ChunkSize, IsSizeLine, Decode;
    DecodeTurn(lim, START, s, body);
    var i := Find(s, CRLF);
    if i < 0 {
      chunks, line := [], s[..lim.maxChunkLine];
      assert s == line + "\r";
    } else {
      LineLacksCrlf(s);
      var first, t := s[..i], s[i + 2..];
      SizeLineSound(first);
      var size := ChunkSize(first).value;
      TrailersStay(lim, Control(Trailers, 0, 0), t, body);
      DataThenCrlf(lim, size, t, body);
      var data := t[..size];
      chunks, line := LoneCrSound(lim, t[size + 2..], body + data);
      ConsLoneCr(lim, Chunk(first, data), chunks, line, |body|);
      chunks := [Chunk(first, data)] + chunks;
    }
  }

  lemma LoneCrComplete(lim: ResponseLimits, s: string, body: string, chunks: seq<Chunk>, line: string)
    requires LoneCrParts(lim, s, |body|, chunks, line)
    ensures LoneCr(lim, Decode(lim, START, s, body))
  {
    hide Find, ChunkSize, IsSizeLine, Decode, AreChunks;
    ChunksLead(lim, chunks, line + "\r", body);
    DecodeTurn(lim, START, line + "\r", body + ChunksBody(chunks));
  }

  /** The runs that stop at a lone CR, told from the text: whole chunks, a line of exactly the allowed length, CR. */
  lemma LoneCrExact(lim: ResponseLimits, a: string)
    ensures LoneCr(lim, Decode(lim, START, a, "")) <==> EndsAtLoneCr(lim, a)
  {
    hide Decode, LoneCr, LoneCrParts;
    if LoneCr(lim, Decode(lim, START, a, "")) {
      var chunks, line := LoneCrSound(lim, a, "");
    }
    if chunks: seq<Chunk>, line: string :| LoneCrParts(lim, a, 0, chunks, line) {
      LoneCrComplete(lim, a, "", chunks, line);
    }
  }

  /** When the whole input decodes, decoding up to a cut fails exactly if the text before the cut ends at a lone CR. */
  lemma DecodeCutExact(lim: ResponseLimits, a: string, b: string)
    requires !Decode(lim, START, a + b, "").status.Failed?
    ensures Decode(lim, START, a, "").status.Failed? <==> EndsAtLoneCr(lim, a)
  {
    hide Decode, EndsAtLoneCr;
    DecodeSplit(lim, START, a, b, "");
    LoneCrExact(lim, a);
  }

  /** The excluded cut does happen: with one-byte size lines, "0 CR" fails where "0 CR LF CR LF" completes. */
  lemma LoneCrWitness(lim: ResponseLimits)
    requires lim.maxChunkLine == 1 && lim.maxTrailer >= 2
    ensures EndsAtLoneCr(lim, "0\r")
    ensures Decode(lim, START, "0\r" + "\n\r\n", "") == Run(Complete, Control(Finished, 0, 2), "", "")
  {
    hide Find, ChunkSize, Decode;
    var all := "0\r" + "\n\r\n";
    assert all == "0" + (CRLF + CRLF);
    FindShort("0\r");
    FindShort("0");
    assert "0" + "\r" == "0\r";
    assert LoneCrParts(lim, "0\r", 0, [], "0");
    FindLine("0", CRLF);
    CutLine("0", CRLF);
    ZeroIsSizeLine();
    DecodeTurn(lim, START, all, "");
    assert CRLF + "" == CRLF;
    TrailersComplete(lim, Control(Trailers, 0, 0), [], "", "");
  }

  // ---------- Encoding ----------

  function Glued(pieces: seq<string>): string {
    if pieces == [] then "" else pieces[0] + Glued(pieces[1..])
  }

  function ChunksOf(pieces: seq<string>): seq<Chunk> {
    if pieces == [] then [] else [Chunk(Numeral(|pieces[0]|, 16), pieces[0])] + ChunksOf(pieces[1..])
  }

  /** The plainest coding of these pieces: shortest sizes, no extensions, no trailers. */
  function Encode(pieces: seq<string>): Coding { Coding(ChunksOf(pieces), "0", []) }

  predicate Encodable(lim: ResponseLimits, pieces: seq<string>) {
    forall i :: 0 <= i < |pieces| ==>
      pieces[i] != "" && |pieces[i]| <= SIZE_MAX && |Numeral(|pieces[i]|, 16)| <= lim.maxChunkLine
  }

  lemma NumeralLacksCr(s: string)
    requires AllTchar(s)
    ensures Find(s, CRLF) < 0
  {
    hide Find;
    NoCrNoCrlf(s);
  }

  lemma NumeralIsSizeLine(lim: ResponseLimits, n: usize)
    requires |Numeral(n, 16)| <= lim.maxChunkLine
    ensures IsSizeLineWithin(lim, Numeral(n, 16), n)
  {
    hide Numeral, NatOf, DigitOf, Find, IsExtensionList;
    var hex := Numeral(n, 16);
    NumeralDenotes(n, 16);
    assert hex == hex + "" + "";
    assert SizeLineParts(hex, n, hex, "", "");
    NumeralLacksCr(hex);
  }

  lemma {:induction false} ChunksOfPieces(lim: ResponseLimits, pieces: seq<string>)
    requires Encodable(lim, pieces)
    ensures AreChunks(lim, ChunksOf(pieces)) && ChunksBody(ChunksOf(pieces)) == Glued(pieces)
  {
    hide IsSizeLineWithin, Numeral;
    if pieces != [] {
      var one, more := Chunk(Numeral(|pieces[0]|, 16), pieces[0]), ChunksOf(pieces[1..]);
      ChunksOfPieces(lim, pieces[1..]);
      NumeralIsSizeLine(lim, |pieces[0]|);
      assert ([one] + more)[1..] == more;
    }
  }

  lemma ZeroNumeral()
    ensures Numeral(0, 16) == "0"
  {
  }

  /** Any cutting of any body into non-empty pieces, encoded, decodes to that body and stops right after it. */
  lemma EncodeRoundTrip(lim: ResponseLimits, pieces: seq<string>, rest: string)
    requires Encodable(lim, pieces) && |Glued(pieces)| <= lim.maxBody && 1 <= lim.maxChunkLine && 2 <= lim.maxTrailer
    ensures var run := Decode(lim, START, CodingThen(Encode(pieces), rest), "");
            run.status.Complete? && run.body == Glued(pieces) && run.rest == rest
  {
    hide Decode, CodingThen, IsSizeLineWithin, AreChunks, Numeral;
    ChunksOfPieces(lim, pieces);
    ZeroNumeral();
    NumeralIsSizeLine(lim, 0);
    ChunksComplete(lim, Encode(pieces), rest, "");
    assert "" + Glued(pieces) == Glued(pieces);
  }
}
