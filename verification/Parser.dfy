/**
 The incremental response parser (src/http/response_parser.cpp, class ResponseParser): a five-stage
 machine over a receive buffer with the chunked decoder inside it, and the function it computes.
 */
module Parser {
  import opened Results
  import opened Text
  import opened Limits
  import opened Heads
  import Chunked

  datatype Stage = AtHead | ContentLengthBody | CloseDelimitedBody | ChunkedBody | Complete

  datatype Response = Response(status: nat, reason: string, headers: Headers, body: string)

  /** All the parser's mutable fields. */
  datatype State = State(
    stage: Stage,
    response: Response,
    buffer: string,
    decoder: Chunked.Control,
    remaining: nat,
    closeRequested: bool,
    closeDelimited: bool,
    bodyForbidden: bool)

  const START := State(AtHead, Response(0, "", [], ""), "", Chunked.START, 0, false, false, false)

  // ---------- The function the machine computes ----------

  predicate Closes(headers: Headers) { ClosesUpTo(headers, |headers|) }

  function StageFor(d: Decision): Stage {
    match d
    case Fixed(_) => ContentLengthBody
    case ChunkedCoding => ChunkedBody
    case UntilClose => CloseDelimitedBody
    case _ => Complete
  }

  /** The state after a final head has been accepted with decision `d`. */
  function Begin(m: Method, st: State, head: ParsedHead, d: Decision): State {
    st.(response := st.response.(status := head.status, reason := head.reason, headers := head.headers),
        closeRequested := Closes(head.headers) || head.status == 101,
        bodyForbidden := st.bodyForbidden || (head.status == 205 && !IsHeaderTerminated(m, head.status)),
        closeDelimited := st.closeDelimited || d.UntilClose?,
        remaining := if d.Fixed? then d.length else 0,
        stage := StageFor(d))
  }

  /** Consumes interim heads and the final head, if the buffer holds it. */
  function ReadHeads(m: Method, lim: ResponseLimits, st: State): Result<State>
    decreases |st.buffer|
  {
    if st.stage != AtHead then Ok(st)
    else
      var end := Find(st.buffer, BLANK_LINE);
      if end < 0 then (if |st.buffer| > lim.maxHead then Err(ResponseLimitExceeded) else Ok(st))
      else if WouldExceed(end, 4, lim.maxHead) then Err(ResponseLimitExceeded)
      else
        var head :- HeadOf(st.buffer[..end]);
        var st' := st.(buffer := st.buffer[end + 4..]);
        match Decide(m, lim, head.status, head.headers)
        case Reject(e) => Err(e)
        case Interim => ReadHeads(m, lim, st')
        case d => Ok(Begin(m, st', head, d))
  }

  /** Moves buffered body bytes into the response. */
  function Deliver(lim: ResponseLimits, st: State): Result<State> {
    match st.stage
    case AtHead => Ok(st)
    case ContentLengthBody =>
      var amount := if st.remaining < |st.buffer| then st.remaining else |st.buffer|;
      Ok(st.(response := st.response.(body := st.response.body + st.buffer[..amount]),
             buffer := st.buffer[amount..],
             remaining := st.remaining - amount,
             stage := if st.remaining == amount then Complete else ContentLengthBody))
    case CloseDelimitedBody =>
      if st.bodyForbidden && st.buffer != "" then Err(MalformedResponse)
      else if WouldExceed(|st.response.body|, |st.buffer|, lim.maxBody) &&
        st.buffer != "" then Err(ResponseLimitExceeded)
      else Ok(st.(response := st.response.(body := st.response.body + st.buffer), buffer := ""))
    case ChunkedBody =>
      var run := Chunked.Decode(lim, st.decoder, st.buffer, st.response.body);
      if run.status.Failed? then Err(run.status.error)
      else if st.bodyForbidden && run.body != "" then Err(MalformedResponse)
      else Ok(st.(response := st.response.(body := run.body), buffer := run.rest, decoder := run.control,
                  stage := if run.status.Complete? then Complete else ChunkedBody))
    case Complete => Ok(st)
  }

  /** One call of `feed`. */
  function Fed(m: Method, lim: ResponseLimits, st: State, bytes: string): Result<State> {
    var st' :- ReadHeads(m, lim, st.(buffer := st.buffer + bytes));
    Deliver(lim, st')
  }

  /** The call of `finish_eof`. */
  function Ended(lim: ResponseLimits, st: State): Result<State> {
    match st.stage
    case CloseDelimitedBody => var st' :- Deliver(lim, st); Ok(st'.(stage := Complete))
    case Complete => Ok(st)
    case _ => Err(UnexpectedEof)
  }

  predicate IsReusable(st: State) {
    st.stage == Complete && !st.closeRequested && !st.closeDelimited
  }

  // ---------- The machine ----------

  /** What the accepted analysis counts, in terms of the framing fields' values. */
  predicate Counts(headers: Headers, f: FramingInfo) {
    var lengths, codings := Lengths(headers), Codings(headers);
    && FramingOf(headers) == Ok(f)
    && f.lengthCount == |lengths| <= 1 && (lengths != [] ==> f.length == Number(lengths[0], 10).GetOr(0))
    && f.length <= SIZE_MAX
    && (f.codingFields == 0 <==> codings == []) && f.codingTokens == |codings|
    && (|codings| == 1 ==> f.codingIsChunked == IEquals(codings[0], "chunked"))
    && f.closeRequested == Closes(headers)
  }

  lemma FramingCounts(headers: Headers)
    requires FramingOf(headers).Ok?
    ensures Counts(headers, FramingOf(headers).value)
  {
    hide IEquals;
    CodingsCounted(headers, |headers|);
  }

  /** The decision, from the counters, when the response may have a body. */
  function BodyDecision(lim: ResponseLimits, status: nat, f: FramingInfo): Decision {
    if f.codingFields != 0
       then (if f.codingTokens == 1 && f.codingIsChunked then ChunkedCoding else Reject(MalformedResponse))
    else if f.lengthCount == 1 then
      if status == 205 && f.length != 0 then Reject(InvalidContentLength)
      else if f.length > lim.maxBody then Reject(ResponseLimitExceeded)
      else if f.length == 0 then NoBody
      else Fixed(f.length)
    else UntilClose
  }

  /** The decision from the counters is the decision from the fields. */
  lemma FinalDecision(m: Method, lim: ResponseLimits, status: nat, headers: Headers, f: FramingInfo)
    requires Counts(headers, f) && !IsInterim(status)
    ensures Decide(m, lim, status, headers) ==
            if f.lengthCount != 0 && f.codingFields != 0 then Reject(ConflictingMessageFraming)
            else if (status == 101 || status == 204) &&
              (f.lengthCount != 0 || f.codingFields != 0) then Reject(MalformedResponse)
            else if IsHeaderTerminated(m, status) then NoBody
            else BodyDecision(lim, status, f)
    ensures f.lengthCount <= 1 && f.length <= SIZE_MAX && f.closeRequested == Closes(headers)
  {
    hide FramingOf, Lengths, Codings, Number, IEquals, Closes;
  }

  lemma RejectedAnalysis(m: Method, lim: ResponseLimits, status: nat, headers: Headers)
    requires FramingOf(headers).Err?
    ensures Decide(m, lim, status, headers) == Reject(FramingOf(headers).error)
  {
  }

  lemma InterimDecision(m: Method, lim: ResponseLimits, status: nat, headers: Headers, f: FramingInfo)
    requires Counts(headers, f) && IsInterim(status)
    ensures Decide(m, lim, status, headers) == if f.lengthCount != 0 || f.codingFields != 0
            then Reject(MalformedResponse) else Interim
  {
    hide FramingOf, Lengths, Codings, Number, IEquals, Closes;
  }

  /** One accepted head, seen from the function. */
  lemma HeadStep(m: Method, lim: ResponseLimits, before: State, after: State)
    requires before.stage == AtHead
    requires var end := Find(before.buffer, BLANK_LINE);
             && end >= 0 && end + 4 <= lim.maxHead && HeadOf(before.buffer[..end]).Ok?
    requires var end := Find(before.buffer, BLANK_LINE);
             var head := HeadOf(before.buffer[..end]).value;
             var st' := before.(buffer := before.buffer[end + 4..]);
             match Decide(m, lim, head.status, head.headers)
             case Reject(_) => false
             case Interim => after == st'
             case d => after == Begin(m, st', head, d)
    ensures ReadHeads(m, lim, before) == ReadHeads(m, lim, after)
  {
    hide Decide, HeadOf, Find;
  }

  class ResponseParser {
    const requestMethod: Method
    const limits: ResponseLimits
    const chunkedDecoder: Chunked.ChunkedDecoder
    var stage: Stage
    var response: Response
    var buffer: string
    var contentLengthRemaining: usize
    var closeRequested: bool
    var closeDelimited: bool
    var bodyForbidden: bool

    predicate Valid()
      reads this
    {
      chunkedDecoder.limits == limits && (stage == AtHead ==> contentLengthRemaining == 0)
    }

    function Fields(): State
      reads this, chunkedDecoder
    {
      State(stage, response, buffer, chunkedDecoder.Fields(), contentLengthRemaining, closeRequested, closeDelimited,
        bodyForbidden)
    }

    constructor (requestMethod: Method, limits: ResponseLimits)
      ensures Valid() && Fields() == START && fresh(chunkedDecoder)
      ensures this.requestMethod == requestMethod && this.limits == limits
    {
      this.requestMethod, this.limits := requestMethod, limits;
      chunkedDecoder := new Chunked.ChunkedDecoder(limits);
      stage, response, buffer := AtHead, Response(0, "", [], ""), "";
      contentLengthRemaining, closeRequested, closeDelimited, bodyForbidden := 0, false, false, false;
    }

    /** The head stage's work once a head block has been parsed: None means an interim response. */
    method AcceptHead(head: ParsedHead) returns (r: Result<bool>)
      requires Valid() && stage == AtHead
      modifies this
      ensures Valid() && buffer == old(buffer)
      ensures match Decide(requestMethod, limits, head.status, head.headers)
              case Reject(e) => r == Err(e)
              case Interim => r == Ok(false) && Fields() == old(Fields())
              case d => r == Ok(true) && Fields() == Begin(requestMethod, old(Fields()), head, d)
    {
      hide FramingOf, Decide, Begin, Counts, IsInterim;
      var analysis := AnalyzeFraming(head.headers);
      if analysis.Err? {
        RejectedAnalysis(requestMethod, limits, head.status, head.headers);
        return Err(analysis.error);
      }
      var framing := analysis.value;
      FramingCounts(head.headers);
      if IsInterim(head.status) {
        InterimDecision(requestMethod, limits, head.status, head.headers, framing);
        if framing.lengthCount != 0 || framing.codingFields != 0 {
          return Err(MalformedResponse);
        }
        return Ok(false);
      }
      r := AcceptFinal(head, framing);
    }

    /** The final head: what its status and framing fields allow, and the state they lead to. */
    method AcceptFinal(head: ParsedHead, framing: FramingInfo) returns (r: Result<bool>)
      requires Valid() && stage == AtHead && !IsInterim(head.status) && Counts(head.headers, framing)
      modifies this
      ensures Valid() && buffer == old(buffer)
      ensures var d := Decide(requestMethod, limits, head.status, head.headers);
              if d.Reject? then r == Err(d.error)
              else !d.Interim? && r == Ok(true) && Fields() == Begin(requestMethod, old(Fields()), head, d)
    {
      hide Counts, Decide, FramingOf, Closes;
      FinalDecision(requestMethod, limits, head.status, head.headers, framing);
      response := response.(status := head.status, reason := head.reason, headers := head.headers);
      closeRequested := framing.closeRequested || response.status == 101;
      if framing.codingFields != 0 && framing.lengthCount != 0 {
        return Err(ConflictingMessageFraming);
      }
      if (response.status == 101 || response.status == 204) && (framing.lengthCount != 0 || framing.codingFields != 0) {
        return Err(MalformedResponse);
      }
      if IsHeaderTerminated(requestMethod, response.status) {
        stage := Complete;
        return Ok(true);
      }
      r := ChooseBody(framing);
    }

    /** How the body of a final response that may have one is delimited. */
    method ChooseBody(framing: FramingInfo) returns (r: Result<bool>)
      requires Valid() && stage == AtHead && framing.lengthCount <= 1 && framing.length <= SIZE_MAX
      modifies this`stage, this`bodyForbidden, this`closeDelimited, this`contentLengthRemaining
      ensures Valid()
      ensures match BodyDecision(limits, response.status, framing)
              case Reject(e) => r == Err(e)
              case d =>
                && r == Ok(true) && stage == StageFor(d) && contentLengthRemaining == (if d.Fixed? then d.length else 0)
                && bodyForbidden == (old(bodyForbidden) || response.status == 205)
                && closeDelimited == (old(closeDelimited) || d.UntilClose?)
    {
      if response.status == 205 {
        bodyForbidden := true;
        if framing.codingFields != 0 {
          if framing.codingTokens != 1 || !framing.codingIsChunked {
            return Err(MalformedResponse);
          }
          stage := ChunkedBody;
          return Ok(true);
        }
        if framing.lengthCount == 1 {
          if framing.length != 0 {
            return Err(InvalidContentLength);
          }
          stage := Complete;
          return Ok(true);
        }
        closeDelimited := true;
        stage := CloseDelimitedBody;
        return Ok(true);
      }
      if framing.codingFields != 0 {
        if framing.codingTokens != 1 || !framing.codingIsChunked {
          return Err(MalformedResponse);
        }
        stage := ChunkedBody;
        return Ok(true);
      }
      if framing.lengthCount == 1 {
        if framing.length > limits.maxBody {
          return Err(ResponseLimitExceeded);
        }
        contentLengthRemaining := framing.length;
        stage := if contentLengthRemaining == 0 then Complete else ContentLengthBody;
        return Ok(true);
      }
      closeDelimited := true;
      stage := CloseDelimitedBody;
      return Ok(true);
    }

    /** The head stage of the source's loop, interim responses and all. */
    method ProcessHeads() returns (failure: Option<ErrorCode>)
      requires Valid()
      modifies this
      ensures Valid()
      ensures match ReadHeads(requestMethod, limits, old(Fields()))
              case Err(e) => failure == Some(e)
              case Ok(st) => failure == None && Fields() == st
    {
      hide Decide, HeadOf, Find, Begin;
      while stage == AtHead
        invariant Valid()
        invariant ReadHeads(requestMethod, limits, Fields()) == ReadHeads(requestMethod, limits, old(Fields()))
        decreases |buffer|
      {
        ghost var before := Fields();
        var headEnd := Find(buffer, BLANK_LINE);
        if headEnd < 0 {
          return if |buffer| > limits.maxHead then Some(ResponseLimitExceeded) else None;
        }
        if WouldExceed(headEnd, 4, limits.maxHead) {
          return Some(ResponseLimitExceeded);
        }
        var head := ParseHead(buffer[..headEnd]);
        if head.Err? {
          return Some(head.error);
        }
        buffer := buffer[headEnd + 4..];
        var accepted := AcceptHead(head.value);
        if accepted.Err? {
          return Some(accepted.error);
        }
        HeadStep(requestMethod, limits, before, Fields());
      }
      return None;
    }

    /** Ok(true) is the source's Complete, Ok(false) its NeedMore. */
    method ProcessBuffer() returns (r: Result<bool>)
      requires Valid()
      modifies this, chunkedDecoder
      ensures Valid()
      ensures match Fed(requestMethod, limits, old(Fields()), "")
              case Err(e) => r == Err(e)
              case Ok(st) => r == Ok(st.stage == Complete) && Fields() == st
    {
      hide ReadHeads;
      assert buffer + "" == buffer;
      var failure := ProcessHeads();
      if failure.Some? {
        return Err(failure.value);
      }
      if stage == AtHead {
        return Ok(false);
      }
      r := ProcessBody();
    }

    method ProcessBody() returns (r: Result<bool>)
      requires Valid() && stage != AtHead
      modifies this, chunkedDecoder
      ensures Valid()
      ensures match Deliver(limits, old(Fields()))
              case Err(e) => r == Err(e)
              case Ok(st) => r == Ok(st.stage == Complete) && Fields() == st
    {
      hide Chunked.Decode;
      match stage {
        case AtHead =>
        case ContentLengthBody =>
          var amount := if contentLengthRemaining < |buffer| then contentLengthRemaining else |buffer|;
          assert response.body + buffer[..0] == response.body && buffer[0..] == buffer;
          if amount != 0 {
            response := response.(body := response.body + buffer[..amount]);
            buffer := buffer[amount..];
            contentLengthRemaining := contentLengthRemaining - amount;
          }
          if contentLengthRemaining == 0 {
            stage := Complete;
            return Ok(true);
          }
          return Ok(false);

        case CloseDelimitedBody =>
          if bodyForbidden && buffer != "" {
            return Err(MalformedResponse);
          }
          assert response.body + "" == response.body;
          if buffer != "" {
            if WouldExceed(|response.body|, |buffer|, limits.maxBody) {
              return Err(ResponseLimitExceeded);
            }
            response := response.(body := response.body + buffer);
            buffer := "";
          }
          return Ok(false);

        case ChunkedBody =>
          var decoded, input, output := chunkedDecoder.Process(buffer, response.body);
          buffer, response := input, response.(body := output);
          if decoded.Err? {
            return Err(decoded.error);
          }
          if bodyForbidden && response.body != "" {
            return Err(MalformedResponse);
          }
          if !decoded.value {
            return Ok(false);
          }
          stage := Complete;
          return Ok(true);

        case Complete =>
          return Ok(true);
      }
    }

    method Feed(bytes: string) returns (r: Result<bool>)
      requires Valid()
      modifies this, chunkedDecoder
      ensures Valid()
      ensures match Fed(requestMethod, limits, old(Fields()), bytes)
              case Err(e) => r == Err(e)
              case Ok(st) => r == Ok(st.stage == Complete) && Fields() == st
    {
      hide ReadHeads, Deliver;
      assert buffer + "" == buffer;
      assert (buffer + bytes) + "" == buffer + bytes;
      if bytes != "" {
        buffer := buffer + bytes;
      }
      r := ProcessBuffer();
    }

    method FinishEof() returns (r: Result<bool>)
      requires Valid()
      modifies this, chunkedDecoder
      ensures Valid()
      ensures match Ended(limits, old(Fields()))
              case Err(e) => r == Err(e)
              case Ok(st) => r == Ok(true) && Fields() == st
    {
      match stage {
        case CloseDelimitedBody =>
          if bodyForbidden && buffer != "" {
            return Err(MalformedResponse);
          }
          assert response.body + "" == response.body;
          if buffer != "" {
            if WouldExceed(|response.body|, |buffer|, limits.maxBody) {
              return Err(ResponseLimitExceeded);
            }
            response := response.(body := response.body + buffer);
            buffer := "";
          }
          stage := Complete;
          return Ok(true);
        case Complete =>
          return Ok(true);
        case _ =>
          return Err(UnexpectedEof);
      }
    }

    predicate ConnectionReusable()
      reads this
    {
      stage == Complete && !closeRequested && !closeDelimited
    }
  }
}
