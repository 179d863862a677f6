/** What the chunked decoder says of any text, told from the text: that it needs more, that it is done, or that it
 fails with a given code, exactly when the text has the form given here. */
module VerdictProofs {
  import opened Results
  import opened Text
  import opened Limits
  import opened ChunkLine
  import opened Chunked
  import opened ChunkedProofs

  // ---------- Texts that are chunked so far, and texts that are no longer ----------

  /** Whole chunks within the limits when `before` bytes of body precede them, and then `tail`. */
  ghost predicate AreFront(lim: ResponseLimits, text: string, before: nat, chunks: seq<Chunk>, tail: string) {
    AreChunks(lim, chunks) && before + |ChunksBody(chunks)| <= lim.maxBody && text == ChunksThen(chunks, tail)
  }

  ghost predicate IsLineThen(lim: ResponseLimits, tail: string, line: string, more: string) {
    tail == line + (CRLF + more) && Find(line, CRLF) < 0 && |line| <= lim.maxChunkLine
  }

  /** A size line, and less than its data and the CRLF after it. */
  ghost predicate IsOpenData(lim: ResponseLimits, before: nat, tail: string, line: string, more: string) {
    && IsLineThen(lim, tail, line, more)
    && exists size: nat :: IsSizeLine(line, size) && 0 < size <= lim.maxBody - before && |more| < size + 2
  }

  /** Whole trailers within the limit, and then `part`. */
  predicate AreTrailersThen(lim: ResponseLimits, more: string, lines: seq<string>, part: string) {
    more == LinesThen(lines, part) && AreTrailers(lines) && LinesSize(lines) <= lim.maxTrailer
  }

  /** The zero line, whole trailers, and part of another or of the empty line. */
  ghost predicate IsOpenTrailers(lim: ResponseLimits, tail: string, line: string, more: string) {
    && IsLineThen(lim, tail, line, more) && IsSizeLine(line, 0)
    && exists lines: seq<string>, part: string ::
         AreTrailersThen(lim, more, lines, part) && Find(part, CRLF) < 0 && LinesSize(lines) + |part| <= lim.maxTrailer
  }

  ghost predicate IsOpenTail(lim: ResponseLimits, before: nat, tail: string) {
    || (|tail| <= lim.maxChunkLine && Find(tail, CRLF) < 0)
    || exists line: string, more: string ::
         IsOpenData(lim, before, tail, line, more) || IsOpenTrailers(lim, tail, line, more)
  }

  /** Chunked so far: whole chunks, and then part of a size line, of a chunk or of the trailer section. */
  ghost predicate IsOpen(lim: ResponseLimits, text: string) {
    exists chunks: seq<Chunk>, tail: string ::
      AreFront(lim, text, 0, chunks, tail) && IsOpenTail(lim, |ChunksBody(chunks)|, tail)
  }

  /** A trailer section that has `seen` bytes behind it and goes wrong at `part`, with `e`. */
  predicate IsBrokenTrailer(lim: ResponseLimits, seen: nat, part: string, e: ErrorCode) {
    var i := Find(part, CRLF);
    if i < 0 then seen + |part| > lim.maxTrailer && e == ResponseLimitExceeded
    else if seen + i + 2 > lim.maxTrailer then e == ResponseLimitExceeded
    else i > 0 && !IsTrailerLine(part[..i]) && e == InvalidHeader
  }

  /** What goes wrong with a line within the limit, or after it. */
  ghost predicate IsBrokenAfter(lim: ResponseLimits, before: nat, line: string, more: string, e: ErrorCode) {
    match ChunkSize(line)
    case Err(bad) => e == bad
    case Ok(size) =>
      if size == 0
      then exists lines: seq<string>, part: string ::
             AreTrailersThen(lim, more, lines, part) && IsBrokenTrailer(lim, LinesSize(lines), part, e)
      else if before + size > lim.maxBody then e == ResponseLimitExceeded
      else e == InvalidChunkFraming && size + 2 <= |more| && more[size..size + 2] != CRLF
  }

  ghost predicate IsBrokenTail(lim: ResponseLimits, before: nat, tail: string, e: ErrorCode) {
    || (|tail| > lim.maxChunkLine && !(0 <= Find(tail, CRLF) <= lim.maxChunkLine) && e == ResponseLimitExceeded)
    || exists line: string, more: string ::
         IsLineThen(lim, tail, line, more) && IsBrokenAfter(lim, before, line, more, e)
  }

  /**
   No longer chunked: whole chunks, and then a line too long, a line that is no size line, a size above the body
   limit, data not followed by CRLF, or a trailer that is too long or not allowed; `e` is the code for it.
   */
  ghost predicate IsBroken(lim: ResponseLimits, text: string, e: ErrorCode) {
    exists chunks: seq<Chunk>, tail: string ::
      AreFront(lim, text, 0, chunks, tail) && IsBrokenTail(lim, |ChunksBody(chunks)|, tail, e)
  }

  ghost predicate Breaks(lim: ResponseLimits, text: string) {
    exists e :: IsBroken(lim, text, e)
  }

  ghost predicate HoldsCoding(lim: ResponseLimits, text: string) {
    exists k: Coding, rest: string :: IsCoding(lim, k, 0) && text == CodingThen(k, rest)
  }

  // ---------- Whole chunks and whole trailers come off the front ----------

  /** `tail` begins with a whole chunk within the limits. */
  predicate BeginsWithChunk(lim: ResponseLimits, before: nat, tail: string) {
    var i := Find(tail, CRLF);
    && 0 <= i <= lim.maxChunkLine && ChunkSize(tail[..i]).Ok?
    && var size, more := ChunkSize(tail[..i]).value, tail[i + 2..];
       0 < size <= lim.maxBody - before && size + 2 <= |more| && more[size..size + 2] == CRLF
  }

  lemma ChunkOff(lim: ResponseLimits, before: nat, tail: string) returns (c: Chunk, next: string)
    requires BeginsWithChunk(lim, before, tail)
    ensures c.data != "" && IsSizeLineWithin(lim, c.line, |c.data|) && before + |c.data| <= lim.maxBody
    ensures tail == c.line + (CRLF + (c.data + (CRLF + next)))
  {
    hide Find, ChunkSize, IsSizeLine;
    var i := Find(tail, CRLF);
    LineLacksCrlf(tail);
    SizeLineSound(tail[..i]);
    var size, more := ChunkSize(tail[..i]).value, tail[i + 2..];
    c, next := Chunk(tail[..i], more[..size]), more[size + 2..];
    CutTwice(more, size, size + 2);
    Regroup(more[..size], CRLF, next);
  }

  lemma FrontMore(lim: ResponseLimits, before: nat, c: Chunk, chunks: seq<Chunk>, next: string, tail: string)
    requires c.data != "" && IsSizeLineWithin(lim, c.line, |c.data|)
    requires AreFront(lim, next, before + |c.data|, chunks, tail)
    ensures AreFront(lim, c.line + (CRLF + (c.data + (CRLF + next))), before, [c] + chunks, tail)
    ensures |ChunksBody([c] + chunks)| == |c.data| + |ChunksBody(chunks)|
  {
    hide IsSizeLineWithin;
    assert ([c] + chunks)[1..] == chunks;
  }

  lemma NoChunks(lim: ResponseLimits, text: string, before: nat)
    requires before <= lim.maxBody
    ensures AreFront(lim, text, before, [], text)
  {
  }

  /** All the whole chunks at the front of a text. */
  lemma {:induction false} ChunksOff(lim: ResponseLimits, before: nat, text: string)
    returns (chunks: seq<Chunk>, tail: string)
    requires before <= lim.maxBody
    ensures AreFront(lim, text, before, chunks, tail) && !BeginsWithChunk(lim, before + |ChunksBody(chunks)|, tail)
    decreases |text|
  {
    hide BeginsWithChunk, AreFront;
    if BeginsWithChunk(lim, before, text) {
      var c, next := ChunkOff(lim, before, text);
      var rest, tail' := ChunksOff(lim, before + |c.data|, next);
      FrontMore(lim, before, c, rest, next, tail');
      chunks, tail := [c] + rest, tail';
    } else {
      chunks, tail := [], text;
      assert AreFront(lim, text, before, [], text) by { NoChunks(lim, text, before); }
      assert before + |ChunksBody([])| == before;
    }
  }

  lemma {:induction false} TrailersLead(lim: ResponseLimits, seen: nat, lines: seq<string>, part: string, body: string)
    requires AreTrailers(lines) && seen + LinesSize(lines) <= lim.maxTrailer
    ensures Decode(lim, Control(Trailers, 0, seen), LinesThen(lines, part), body)
            == Decode(lim, Control(Trailers, 0, seen + LinesSize(lines)), part, body)
    decreases |lines|
  {
    hide IsTrailerLine, Find, Decode;
    if lines != [] {
      var tail := LinesThen(lines[1..], part);
      DecodeTurn(lim, Control(Trailers, 0, seen), LinesThen(lines, part), body);
      FindLine(lines[0], tail);
      CutLine(lines[0], tail);
      TrailerLineIsNotEmpty(lines[0]);
      TrailersLead(lim, seen + |lines[0]| + 2, lines[1..], part, body);
    }
  }

  /** All the whole trailers at the front of a text. */
  lemma {:induction false} TrailersOff(lim: ResponseLimits, seen: nat, text: string)
    returns (lines: seq<string>, part: string)
    requires seen <= lim.maxTrailer
    ensures text == LinesThen(lines, part) && AreTrailers(lines) && seen + LinesSize(lines) <= lim.maxTrailer
    ensures var i := Find(part, CRLF);
            i > 0 && seen + LinesSize(lines) + i + 2 <= lim.maxTrailer ==> !IsTrailerLine(part[..i])
    decreases |text|
  {
    hide IsTrailerLine, Find;
    var i := Find(text, CRLF);
    if i > 0 && seen + i + 2 <= lim.maxTrailer && IsTrailerLine(text[..i]) {
      LineLacksCrlf(text);
      var rest, part' := TrailersOff(lim, seen + i + 2, text[i + 2..]);
      lines, part := [text[..i]] + rest, part';
      assert lines[1..] == rest;
    } else {
      lines, part := [], text;
    }
  }

  // ---------- The tail decides ----------

  /** The run on what follows a line within the limit. */
  function AfterLine(lim: ResponseLimits, line: string, more: string, body: string): Status {
    match ChunkSize(line)
    case Err(e) => Failed(e)
    case Ok(size) =>
      if size == 0 then Decode(lim, Control(Trailers, 0, 0), more, body).status
      else if |body| + size > lim.maxBody then Failed(ResponseLimitExceeded)
      else Decode(lim, Control(Data, size, 0), more, body).status
  }

  /** The run on a tail: what its first line makes of it. */
  lemma LineTurn(lim: ResponseLimits, tail: string, body: string)
    ensures var i, status := Find(tail, CRLF), Decode(lim, START, tail, body).status;
            if i < 0 then status == if |tail| > lim.maxChunkLine then Failed(ResponseLimitExceeded) else NeedMore
            else if i > lim.maxChunkLine then status == Failed(ResponseLimitExceeded)
            else status == AfterLine(lim, tail[..i], tail[i + 2..], body)
  {
    hide Find, ChunkSize, Decode;
    DecodeTurn(lim, START, tail, body);
  }

  lemma DataTurn(lim: ResponseLimits, size: nat, more: string, body: string)
    requires size > 0
    ensures var status := Decode(lim, Control(Data, size, 0), more, body).status;
            if |more| < size + 2 then status == NeedMore
            else more[size..size + 2] != CRLF ==> status == Failed(InvalidChunkFraming)
  {
    hide Find, ChunkSize, Decode;
    DecodeTurn(lim, Control(Data, size, 0), more, body);
    if size <= |more| {
      DecodeTurn(lim, Control(DataCrlf, 0, 0), more[size..], body + more[..size]);
      if size + 2 <= |more| {
        assert more[size..][0] == more[size] && more[size..][1] == more[size + 1];
        assert more[size..size + 2] == [more[size], more[size + 1]];
      }
    }
  }

  lemma TrailerTurn(lim: ResponseLimits, seen: nat, part: string, body: string)
    ensures var i, status := Find(part, CRLF), Decode(lim, Control(Trailers, 0, seen), part, body).status;
            if i < 0 then status == if seen + |part| > lim.maxTrailer then Failed(ResponseLimitExceeded) else NeedMore
            else if seen + i + 2 > lim.maxTrailer then status == Failed(ResponseLimitExceeded)
            else if i == 0 then status == Complete
            else !IsTrailerLine(part[..i]) ==> status == Failed(InvalidHeader)
  {
    hide IsTrailerLine, Find, Decode;
    DecodeTurn(lim, Control(Trailers, 0, seen), part, body);
  }

  lemma TrailersOpen(lim: ResponseLimits, lines: seq<string>, part: string, body: string)
    requires AreTrailers(lines) && LinesSize(lines) <= lim.maxTrailer
    ensures var status := Decode(lim, Control(Trailers, 0, 0), LinesThen(lines, part), body).status;
            && (Find(part, CRLF) < 0 && LinesSize(lines) + |part| <= lim.maxTrailer ==> status == NeedMore)
            && (forall e :: IsBrokenTrailer(lim, LinesSize(lines), part, e) ==> status == Failed(e))
  {
    hide IsTrailerLine, Find, Decode, LinesThen, LinesSize;
    TrailersLead(lim, 0, lines, part, body);
    TrailerTurn(lim, LinesSize(lines), part, body);
  }

  lemma TrailersVerdict(lim: ResponseLimits, more: string, body: string) returns (lines: seq<string>, part: string)
    ensures AreTrailersThen(lim, more, lines, part)
    ensures var status := Decode(lim, Control(Trailers, 0, 0), more, body).status;
            && (status == NeedMore ==> Find(part, CRLF) < 0 && LinesSize(lines) + |part| <= lim.maxTrailer)
            && (forall e :: status == Failed(e) ==> IsBrokenTrailer(lim, LinesSize(lines), part, e))
  {
    hide IsTrailerLine, Find, Decode, LinesThen, LinesSize;
    lines, part := TrailersOff(lim, 0, more);
    TrailersLead(lim, 0, lines, part, body);
    TrailerTurn(lim, LinesSize(lines), part, body);
  }

  lemma AfterSound(lim: ResponseLimits, tail: string, line: string, more: string, body: string)
    requires IsLineThen(lim, tail, line, more) && |body| <= lim.maxBody
    requires ChunkSize(line).Ok? ==>
               var size := ChunkSize(line).value;
               0 < size <= lim.maxBody - |body| && size + 2 <= |more| ==> more[size..size + 2] != CRLF
    ensures AfterLine(lim, line, more, body) == NeedMore ==>
              IsOpenData(lim, |body|, tail, line, more) || IsOpenTrailers(lim, tail, line, more)
    ensures forall e :: AfterLine(lim, line, more, body) == Failed(e) ==> IsBrokenAfter(lim, |body|, line, more, e)
  {
    hide IsTrailerLine, Find, Decode, ChunkSize, IsSizeLine, IsLineThen, AreTrailersThen, IsBrokenTrailer, LinesThen,
         LinesSize;
    if ChunkSize(line).Ok? {
      var size := ChunkSize(line).value;
      SizeLineSound(line);
      if size == 0 {
        var lines, part := TrailersVerdict(lim, more, body);
      } else {
        DataTurn(lim, size, more, body);
      }
    }
  }

  lemma AfterComplete(lim: ResponseLimits, tail: string, line: string, more: string, body: string)
    requires |body| <= lim.maxBody
    ensures IsOpenData(lim, |body|, tail, line, more) || IsOpenTrailers(lim, tail, line, more) ==>
              AfterLine(lim, line, more, body) == NeedMore
    ensures forall e :: IsBrokenAfter(lim, |body|, line, more, e) ==> AfterLine(lim, line, more, body) == Failed(e)
  {
    hide IsTrailerLine, Find, Decode, ChunkSize, IsSizeLine, IsLineThen, IsBrokenTrailer, LinesThen, LinesSize,
         AreTrailers;
    if IsOpenData(lim, |body|, tail, line, more) {
      var size: nat :| IsSizeLine(line, size) && 0 < size <= lim.maxBody - |body| && |more| < size + 2;
      SizeLineComplete(line, size);
      DataTurn(lim, size, more, body);
    }
    if IsOpenTrailers(lim, tail, line, more) {
      SizeLineComplete(line, 0);
    }
    forall lines: seq<string>, part: string | AreTrailersThen(lim, more, lines, part)
      ensures var status := Decode(lim, Control(Trailers, 0, 0), more, body).status;
              && (Find(part, CRLF) < 0 && LinesSize(lines) + |part| <= lim.maxTrailer ==> status == NeedMore)
              && (forall e :: IsBrokenTrailer(lim, LinesSize(lines), part, e) ==> status == Failed(e))
    {
      TrailersOpen(lim, lines, part, body);
    }
    if ChunkSize(line).Ok? && ChunkSize(line).value > 0 {
      DataTurn(lim, ChunkSize(line).value, more, body);
    }
  }

  lemma LineIsFound(lim: ResponseLimits, tail: string, line: string, more: string)
    requires IsLineThen(lim, tail, line, more)
    ensures Find(tail, CRLF) == |line| <= lim.maxChunkLine && tail[..|line|] == line && tail[|line| + 2..] == more
  {
    hide Find;
    FindLine(line, more);
    CutLine(line, more);
  }

  lemma LineIsThere(lim: ResponseLimits, tail: string)
    requires 0 <= Find(tail, CRLF) <= lim.maxChunkLine
    ensures var i := Find(tail, CRLF); IsLineThen(lim, tail, tail[..i], tail[i + 2..])
  {
    hide Find;
    LineLacksCrlf(tail);
  }

  lemma TailSound(lim: ResponseLimits, tail: string, body: string)
    requires |body| <= lim.maxBody && !BeginsWithChunk(lim, |body|, tail)
    ensures Decode(lim, START, tail, body).status == NeedMore ==> IsOpenTail(lim, |body|, tail)
    ensures forall e :: Decode(lim, START, tail, body).status == Failed(e) ==> IsBrokenTail(lim, |body|, tail, e)
  {
    hide Find, Decode, ChunkSize, AfterLine, IsOpenData, IsOpenTrailers, IsBrokenAfter, IsLineThen;
    LineTurn(lim, tail, body);
    var i := Find(tail, CRLF);
    if 0 <= i <= lim.maxChunkLine {
      LineIsThere(lim, tail);
      AfterSound(lim, tail, tail[..i], tail[i + 2..], body);
    }
  }

  lemma LineOfTail(lim: ResponseLimits, before: nat, tail: string, line: string, more: string)
    ensures IsOpenData(lim, before, tail, line, more) || IsOpenTrailers(lim, tail, line, more) ==>
              IsLineThen(lim, tail, line, more)
  {
    hide IsLineThen;
  }

  lemma TailComplete(lim: ResponseLimits, tail: string, body: string)
    requires |body| <= lim.maxBody
    ensures IsOpenTail(lim, |body|, tail) ==> Decode(lim, START, tail, body).status == NeedMore
    ensures forall e :: IsBrokenTail(lim, |body|, tail, e) ==> Decode(lim, START, tail, body).status == Failed(e)
  {
    hide Find, Decode, ChunkSize, AfterLine, IsOpenData, IsOpenTrailers, IsBrokenAfter, IsLineThen;
    LineTurn(lim, tail, body);
    forall line: string, more: string |
      IsLineThen(lim, tail, line, more) || IsOpenData(lim, |body|, tail, line, more) ||
      IsOpenTrailers(lim, tail, line, more)
      ensures IsLineThen(lim, tail, line, more) && Find(tail, CRLF) == |line| <= lim.maxChunkLine &&
              tail[..|line|] == line && tail[|line| + 2..] == more
    {
      LineOfTail(lim, |body|, tail, line, more);
      LineIsFound(lim, tail, line, more);
    }
    var i := Find(tail, CRLF);
    if 0 <= i {
      AfterComplete(lim, tail, tail[..i], tail[i + 2..], body);
    }
  }

  // ---------- The verdict on any text ----------

  /** The decoder needs more exactly on texts that are chunked so far, and fails exactly on those that no longer are. */
  lemma VerdictExact(lim: ResponseLimits, text: string)
    ensures Decode(lim, START, text, "").status == NeedMore <==> IsOpen(lim, text)
    ensures forall e :: Decode(lim, START, text, "").status == Failed(e) <==> IsBroken(lim, text, e)
  {
    hide Decode, IsOpenTail, IsBrokenTail, BeginsWithChunk, ChunksBody, ChunksThen;
    forall chunks: seq<Chunk>, tail: string | AreFront(lim, text, 0, chunks, tail)
      ensures Decode(lim, START, text, "").status == Decode(lim, START, tail, ChunksBody(chunks)).status
      ensures IsOpenTail(lim, |ChunksBody(chunks)|, tail) ==> Decode(lim, START, text, "").status == NeedMore
      ensures forall e ::
                IsBrokenTail(lim, |ChunksBody(chunks)|, tail, e) ==> Decode(lim, START, text, "").status == Failed(e)
    {
      ChunksLead(lim, chunks, tail, "");
      assert "" + ChunksBody(chunks) == ChunksBody(chunks);
      TailComplete(lim, tail, ChunksBody(chunks));
    }
    var chunks, tail := ChunksOff(lim, 0, text);
    TailSound(lim, tail, ChunksBody(chunks));
  }

  /** Exactly one of the three holds of any text. */
  lemma OneVerdict(lim: ResponseLimits, text: string)
    ensures Breaks(lim, text) <==> !IsOpen(lim, text) && !HoldsCoding(lim, text)
    ensures !(IsOpen(lim, text) && HoldsCoding(lim, text))
  {
    hide Decode, IsOpen, IsBroken, IsCoding, CodingThen;
    VerdictExact(lim, text);
    var run := Decode(lim, START, text, "");
    DecodeExact(lim, text, run.body, run.rest);
    if k: Coding, rest: string :| IsCoding(lim, k, 0) && text == CodingThen(k, rest) {
      DecodeExact(lim, text, ChunksBody(k.chunks), rest);
    }
  }

  // ---------- The first byte of data ----------

  /** A size line within the limits, not zero, and at least one byte after it. */
  ghost predicate HasData(lim: ResponseLimits, text: string) {
    exists line: string, more: string, size: nat ::
      IsLineThen(lim, text, line, more) && IsSizeLine(line, size) && 0 < size <= lim.maxBody && more != ""
  }

  lemma {:induction false} TrailersKeepBody(lim: ResponseLimits, c: Control, s: string, body: string)
    requires c.stage.Trailers?
    ensures Decode(lim, c, s, body).body == body
    decreases |s|
  {
    hide Decode, IsTrailerLine, Find;
    DecodeTurn(lim, c, s, body);
    var i := Find(s, CRLF);
    if i > 0 {
      TrailersKeepBody(lim, c.(trailerSeen := c.trailerSeen + i + 2), s[i + 2..], body);
    }
  }

  lemma DataBody(lim: ResponseLimits, size: nat, more: string)
    requires size > 0
    ensures Decode(lim, Control(Data, size, 0), more, "").body != "" <==> more != ""
  {
    hide Decode, Find, ChunkSize, IsTrailerLine;
    DecodeTurn(lim, Control(Data, size, 0), more, "");
    if size <= |more| {
      assert "" + more[..size] != "";
      DecodeShape(lim, Control(DataCrlf, 0, 0), more[size..], "" + more[..size]);
    }
  }

  /** The decoder has put out something exactly if some data arrived. */
  lemma DataExact(lim: ResponseLimits, text: string)
    ensures Decode(lim, START, text, "").body != "" <==> HasData(lim, text)
  {
    hide Find, Decode, ChunkSize, IsSizeLine, IsLineThen;
    DecodeTurn(lim, START, text, "");
    var i := Find(text, CRLF);
    if 0 <= i <= lim.maxChunkLine {
      var line, more := text[..i], text[i + 2..];
      LineIsThere(lim, text);
      if ChunkSize(line).Ok? {
        var size := ChunkSize(line).value;
        SizeLineSound(line);
        if size == 0 {
          TrailersKeepBody(lim, Control(Trailers, 0, 0), more, "");
        } else if size <= lim.maxBody {
          DataBody(lim, size, more);
        }
      }
    }
    forall line: string, more: string, size: nat |
      IsLineThen(lim, text, line, more) && IsSizeLine(line, size) && 0 < size <= lim.maxBody
      ensures i == |line| <= lim.maxChunkLine && text[..i] == line && text[i + 2..] == more &&
              ChunkSize(line) == Ok(size)
    {
      LineIsFound(lim, text, line, more);
      SizeLineComplete(line, size);
    }
  }

  // ---------- After a lone CR ----------

  /** A line of the allowed length and its CR, and then `b`: complete if `b` starts with LF, and too long if not. */
  lemma LoneCrLine(lim: ResponseLimits, line: string, b: string)
    requires |line| == lim.maxChunkLine && Find(line + "\r", CRLF) < 0
    ensures var tail := line + "\r" + b;
            if b != "" && b[0] == '\n' then IsLineThen(lim, tail, line, b[1..])
            else |tail| > lim.maxChunkLine && !(0 <= Find(tail, CRLF) <= lim.maxChunkLine)
  {
    hide Find;
    var front := line + "\r";
    var tail := front + b;
    FindExtend(front, b, CRLF);
    if b != "" && b[0] == '\n' {
      FindExtend(line, "\r", CRLF);
      assert b == "\n" + b[1..];
      assert tail == line + (CRLF + b[1..]);
    } else {
      FindRun(tail, CRLF);
      assert 0 <= Find(tail, CRLF) ==> tail[Find(tail, CRLF) + 1] == CRLF[1];
    }
  }

  /** What a decoder that is given `b` along with what precedes it makes of a lone CR before `b`. */
  lemma LoneCrGoesOn(lim: ResponseLimits, a: string, b: string, chunks: seq<Chunk>, line: string)
    requires LoneCrParts(lim, a, 0, chunks, line)
    ensures var whole := Decode(lim, START, a + b, "").status;
            if b == "" || b[0] != '\n' then whole == Failed(ResponseLimitExceeded)
            else whole == AfterLine(lim, line, b[1..], ChunksBody(chunks))
  {
    hide Find, Decode, ChunkSize, AfterLine;
    var tail := line + "\r" + b;
    ChunksThenGlue(chunks, line + "\r", b);
    ChunksLead(lim, chunks, tail, "");
    assert "" + ChunksBody(chunks) == ChunksBody(chunks);
    LoneCrLine(lim, line, b);
    LineTurn(lim, tail, ChunksBody(chunks));
    if b != "" && b[0] == '\n' {
      LineIsFound(lim, tail, line, b[1..]);
    }
  }
}
