/**
 The chunked decoder (src/http/chunked_decoder.cpp): a resumable five-stage machine over a mutable
 buffer, the function it computes, and what that function promises.
 */
module Chunked {
  import opened Results
  import opened Text
  import opened Limits
  import opened ChunkLine

  datatype Stage = SizeLine | Data | DataCrlf | Trailers | Finished

  /** The decoder's own fields. */
  datatype Control = Control(stage: Stage, remaining: nat, trailerSeen: nat)

  const START := Control(SizeLine, 0, 0)

  datatype Status = NeedMore | Complete | Failed(error: ErrorCode)

  /** Where a call ends: how, with which fields, with which input not yet decoded, with which output. */
  datatype Run = Run(status: Status, control: Control, rest: string, body: string)

  /** One turn of the loop: the call ends, or goes on with other fields, less input and more body. */
  datatype Turn = Halt(run: Run) | Go(control: Control, input: string, body: string)

  function TurnOf(lim: ResponseLimits, c: Control, input: string, body: string): (t: Turn)
    ensures t.Go? ==> |t.input| < |input| || (|t.input| == |input| && c.stage.Data? && !t.control.stage.Data?)
  {
    match c.stage
    case SizeLine =>
      var i := Find(input, CRLF);
      if i < 0 then
        Halt(Run(if |input| > lim.maxChunkLine then Failed(ResponseLimitExceeded) else NeedMore, c, input, body))
      else if i > lim.maxChunkLine then Halt(Run(Failed(ResponseLimitExceeded), c, input, body))
      else (
        match ChunkSize(input[..i])
        case Err(e) => Halt(Run(Failed(e), c, input, body))
        case Ok(size) =>
          if size != 0 && WouldExceed(|body|, size, lim.maxBody)
             then Halt(Run(Failed(ResponseLimitExceeded), c, input, body))
          else Go(c.(stage := if size == 0 then Trailers else Data, remaining := size), input[i + 2..], body)
      )
    case Data =>
      if |input| < c.remaining then Halt(Run(NeedMore, c.(remaining := c.remaining - |input|), "", body + input))
      else Go(c.(stage := DataCrlf, remaining := 0), input[c.remaining..], body + input[..c.remaining])
    case DataCrlf =>
      if |input| < 2 then Halt(Run(NeedMore, c, input, body))
      else if input[0] != '\r' || input[1] != '\n' then Halt(Run(Failed(InvalidChunkFraming), c, input, body))
      else Go(c.(stage := SizeLine), input[2..], body)
    case Trailers =>
      var i := Find(input, CRLF);
      if i < 0 then
        Halt(Run(if WouldExceed(c.trailerSeen, |input|, lim.maxTrailer) then Failed(ResponseLimitExceeded)
          else NeedMore, c, input, body))
      else if WouldExceed(c.trailerSeen, i + 2, lim.maxTrailer)
        then Halt(Run(Failed(ResponseLimitExceeded), c, input, body))
      else
        var c' := c.(trailerSeen := c.trailerSeen + i + 2);
        if i == 0 then Halt(Run(Complete, c'.(stage := Finished), input[2..], body))
        else if !IsTrailerLine(input[..i]) then Halt(Run(Failed(InvalidHeader), c', input[i + 2..], body))
        else Go(c', input[i + 2..], body)
    case Finished => Halt(Run(Complete, c, input, body))
  }

  /** One call on `input`, appending to `body`. */
  function Decode(lim: ResponseLimits, c: Control, input: string, body: string): Run
    decreases |input|, if c.stage.Data? then 1 else 0
  {
    match TurnOf(lim, c, input, body)
    case Halt(run) => run
    case Go(c', input', body') => Decode(lim, c', input', body')
  }

  /** One turn, and no more. */
  lemma DecodeTurn(lim: ResponseLimits, c: Control, input: string, body: string)
    ensures Decode(lim, c, input, body) ==
            var t := TurnOf(lim, c, input, body);
            if t.Halt? then t.run else Decode(lim, t.control, t.input, t.body)
  {
    hide TurnOf;
  }

  // ---------- One step, seen from a cursor into the input ----------

  /** What `Decode` does next on `input[cursor..]`, in terms of `input` and `cursor`. */
  function Next(lim: ResponseLimits, c: Control, input: string, cursor: nat, body: string): Run
    requires cursor <= |input|
  {
    var rest := input[cursor..];
    match c.stage
    case SizeLine =>
      var end := FindFrom(input, CRLF, cursor);
      if end < 0 then Run(if |rest| > lim.maxChunkLine then Failed(ResponseLimitExceeded) else NeedMore, c, rest, body)
      else if end - cursor > lim.maxChunkLine then Run(Failed(ResponseLimitExceeded), c, rest, body)
      else (
        match ChunkSize(input[cursor..end])
        case Err(e) => Run(Failed(e), c, rest, body)
        case Ok(size) =>
          if size != 0 && WouldExceed(|body|, size, lim.maxBody) then Run(Failed(ResponseLimitExceeded), c, rest, body)
          else Decode(lim, c.(stage := if size == 0 then Trailers else Data, remaining := size), input[end + 2..], body)
      )
    case Data =>
      if |rest| < c.remaining then Run(NeedMore, c.(remaining := c.remaining - |rest|), "", body + rest)
      else Decode(lim, c.(stage := DataCrlf, remaining := 0), input[cursor + c.remaining..],
        body + input[cursor..cursor + c.remaining])
    case DataCrlf =>
      if |rest| < 2 then Run(NeedMore, c, rest, body)
      else if input[cursor] != '\r' || input[cursor + 1] != '\n' then Run(Failed(InvalidChunkFraming), c, rest, body)
      else Decode(lim, c.(stage := SizeLine), input[cursor + 2..], body)
    case Trailers =>
      var end := FindFrom(input, CRLF, cursor);
      if end < 0 then
        Run(if WouldExceed(c.trailerSeen, |rest|, lim.maxTrailer) then Failed(ResponseLimitExceeded)
          else NeedMore, c, rest, body)
      else if WouldExceed(c.trailerSeen, end - cursor + 2, lim.maxTrailer)
        then Run(Failed(ResponseLimitExceeded), c, rest, body)
      else
        var c' := c.(trailerSeen := c.trailerSeen + (end - cursor + 2));
        if end == cursor then Run(Complete, c'.(stage := Finished), input[end + 2..], body)
        else if !IsTrailerLine(input[cursor..end]) then Run(Failed(InvalidHeader), c', input[end + 2..], body)
        else Decode(lim, c', input[end + 2..], body)
    case Finished => Run(Complete, c, rest, body)
  }

  lemma LineAtCursor(input: string, cursor: nat)
    requires cursor <= |input|
    ensures var i, end := Find(input[cursor..], CRLF), FindFrom(input, CRLF, cursor);
            && (i < 0 <==> end < 0)
            && (end >= 0 ==>
                  && end == cursor + i && input[cursor..][..i] == input[cursor..end]
                  && input[cursor..][i + 2..] == input[end + 2..])
  {
    FindFromIsFind(input, CRLF, cursor);
    var i := Find(input[cursor..], CRLF);
    if i >= 0 {
      CutSum(input, cursor, i + 2);
    }
  }

  lemma NextIsDecode(lim: ResponseLimits, c: Control, input: string, cursor: nat, body: string)
    requires cursor <= |input|
    ensures Decode(lim, c, input[cursor..], body) == Next(lim, c, input, cursor, body)
  {
    hide ChunkSize, IsTrailerLine, FindFrom, Decode;
    var rest := input[cursor..];
    DecodeTurn(lim, c, rest, body);
    match c.stage
    case SizeLine => LineAtCursor(input, cursor);
    case Data =>
      if c.remaining <= |rest| {
        CutSum(input, cursor, c.remaining);
        assert rest[..c.remaining] == input[cursor..cursor + c.remaining];
      }
    case DataCrlf =>
      if 2 <= |rest| {
        CutSum(input, cursor, 2);
      }
    case Trailers => LineAtCursor(input, cursor);
    case Finished =>
  }

  lemma FinishedHalts(lim: ResponseLimits, c: Control, input: string, cursor: nat, body: string)
    requires cursor <= |input| && c.stage.Finished?
    ensures Next(lim, c, input, cursor, body) == Run(Complete, c, input[cursor..], body)
  {
  }

  // ---------- The machine ----------

  class ChunkedDecoder {
    const limits: ResponseLimits
    var stage: Stage
    var chunkRemaining: usize
    var trailerBytesSeen: usize

    function Fields(): Control
      reads this
    {
      Control(stage, chunkRemaining, trailerBytesSeen)
    }

    constructor (limits: ResponseLimits)
      ensures this.limits == limits && Fields() == START
    {
      this.limits := limits;
      stage, chunkRemaining, trailerBytesSeen := SizeLine, 0, 0;
    }

    /**
     One iteration of the source's loop, one method per stage. `halt` is the status the call ends
     with, or None when the loop goes round again.
     */
    method ReadSizeLine(input: string, cursor: nat, output: string) returns (halt: Option<Status>, cursor': nat)
      requires cursor <= |input| && stage.SizeLine?
      modifies this
      ensures cursor <= cursor' <= |input|
      ensures Next(limits, old(Fields()), input, cursor, output) == Resume(halt, Fields(), input, cursor', output)
      ensures halt.None? ==> cursor < cursor'
    {
      hide Decode, ChunkSize, FindFrom;
      cursor' := cursor;
      var lineEnd := FindFrom(input, CRLF, cursor);
      if lineEnd < 0 {
        halt := Some(if |input| - cursor > limits.maxChunkLine then Failed(ResponseLimitExceeded) else NeedMore);
        return;
      }
      if lineEnd - cursor > limits.maxChunkLine {
        return Some(Failed(ResponseLimitExceeded)), cursor;
      }
      var size := ParseChunkSize(input[cursor..lineEnd]);
      if size.Err? {
        return Some(Failed(size.error)), cursor;
      }
      if size.value != 0 && WouldExceed(|output|, size.value, limits.maxBody) {
        return Some(Failed(ResponseLimitExceeded)), cursor;
      }
      chunkRemaining := size.value;
      stage := if chunkRemaining == 0 then Trailers else Data;
      return None, lineEnd + 2;
    }

    method ReadData(input: string, cursor: nat, output: string)
      returns (halt: Option<Status>, cursor': nat, output': string)
      requires cursor <= |input| && stage.Data?
      modifies this
      ensures cursor <= cursor' <= |input|
      ensures Next(limits, old(Fields()), input, cursor, output) == Resume(halt, Fields(), input, cursor', output')
      ensures halt.None? ==> !stage.Data?
    {
      hide Decode;
      cursor', output' := cursor, output;
      var available := |input| - cursor;
      var amount := if chunkRemaining < available then chunkRemaining else available;
      if amount != 0 {
        output' := output' + input[cursor..cursor + amount];
        cursor' := cursor + amount;
        chunkRemaining := chunkRemaining - amount;
      }
      assert output' == output + input[cursor..cursor'];
      if chunkRemaining != 0 {
        return Some(NeedMore), cursor', output';
      }
      stage := DataCrlf;
      return None, cursor', output';
    }

    method ReadDataCrlf(input: string, cursor: nat, ghost output: string) returns (halt: Option<Status>, cursor': nat)
      requires cursor <= |input| && stage.DataCrlf?
      modifies this
      ensures cursor <= cursor' <= |input|
      ensures Next(limits, old(Fields()), input, cursor, output) == Resume(halt, Fields(), input, cursor', output)
      ensures halt.None? ==> cursor < cursor'
    {
      hide Decode;
      if |input| - cursor < 2 {
        return Some(NeedMore), cursor;
      }
      if input[cursor] != '\r' || input[cursor + 1] != '\n' {
        return Some(Failed(InvalidChunkFraming)), cursor;
      }
      stage := SizeLine;
      return None, cursor + 2;
    }

    method ReadTrailerLine(input: string, cursor: nat, ghost output: string)
      returns (halt: Option<Status>, cursor': nat)
      requires cursor <= |input| && stage.Trailers?
      modifies this
      ensures cursor <= cursor' <= |input|
      ensures Next(limits, old(Fields()), input, cursor, output) == Resume(halt, Fields(), input, cursor', output)
      ensures halt.None? ==> cursor < cursor'
    {
      hide Decode, IsTrailerLine, FindFrom;
      var lineEnd := FindFrom(input, CRLF, cursor);
      if lineEnd < 0 {
        var pending := |input| - cursor;
        halt := Some(if WouldExceed(trailerBytesSeen, pending, limits.maxTrailer)
          then Failed(ResponseLimitExceeded) else NeedMore);
        return halt, cursor;
      }
      var lineBytes := lineEnd - cursor + 2;
      if WouldExceed(trailerBytesSeen, lineBytes, limits.maxTrailer) {
        return Some(Failed(ResponseLimitExceeded)), cursor;
      }
      trailerBytesSeen := trailerBytesSeen + lineBytes;
      cursor' := lineEnd + 2;
      if lineEnd == cursor {
        stage := Finished;
        return Some(Complete), cursor';
      }
      var valid := ValidTrailerLine(input[cursor..lineEnd]);
      halt := if valid then None else Some(Failed(InvalidHeader));
    }

    /** `input` and `output` are the caller's strings before the call, `input'` and `output'` after it. */
    method Process(input: string, output: string) returns (r: Result<bool>, input': string, output': string)
      modifies this
      ensures var run := Decode(limits, old(Fields()), input, output);
              && Fields() == run.control && output' == run.body
              && input' == (if run.status.Failed? then input else run.rest)
              && r == match run.status
                      case NeedMore => Ok(false)
                      case Complete => Ok(true)
                      case Failed(e) => Err(e)
    {
      hide Decode, Next;
      var cursor := 0;
      var halt: Option<Status> := None;
      output' := output;
      CutOnce(input, 0);
      while halt.None?
        invariant cursor <= |input|
        invariant Resume(halt, Fields(), input, cursor, output') == Decode(limits, old(Fields()), input, output)
        decreases halt.None?, |input| - cursor, if stage.Data? then 1 else 0
      {
        NextIsDecode(limits, Fields(), input, cursor, output');
        match stage {
          case SizeLine => halt, cursor := ReadSizeLine(input, cursor, output');
          case Data => halt, cursor, output' := ReadData(input, cursor, output');
          case DataCrlf => halt, cursor := ReadDataCrlf(input, cursor, output');
          case Trailers => halt, cursor := ReadTrailerLine(input, cursor, output');
          case Finished => FinishedHalts(limits, Fields(), input, cursor, output'); halt := Some(Complete);
        }
      }
      match halt.value
      case NeedMore => return Ok(false), input[cursor..], output';
      case Complete => return Ok(true), input[cursor..], output';
      case Failed(e) => return Err(e), input, output';
    }

    /** The outcome of a call that stands at `cursor`: ended with `halt`, or still decoding. */
    ghost function Resume(halt: Option<Status>, c: Control, input: string, cursor: nat, body: string): Run
      requires cursor <= |input|
    {
      if halt.Some? then Run(halt.value, c, input[cursor..], body) else Decode(limits, c, input[cursor..], body)
    }
  }
}
