/** The grammar of whole responses, and that the parser accepts exactly it, delivers exactly the body the
 framing rules give, and stops at exactly the right byte (sections 6.3 and 7.1 of RFC 9112). */
module MessageProofs {
  import opened Results
  import opened Text
  import opened Limits
  import opened Heads
  import opened HeadProofs
  import opened Parser
  import opened ParserProofs
  import Chunked
  import opened ChunkedProofs

  // ---------- The grammar ----------

  /** Interim heads, the final head, and the bytes that carry the body. Heads are given by their lines. */
  datatype Message = Message(interims: seq<seq<string>>, head: seq<string>, payload: string)

  function InterimsThen(interims: seq<seq<string>>, tail: string): string {
    if interims == [] then tail else LinesThen(interims[0], CRLF + InterimsThen(interims[1..], tail))
  }

  /** The bytes of `msg` followed by `rest`. */
  function MessageThen(msg: Message, rest: string): string {
    InterimsThen(msg.interims, LinesThen(msg.head, CRLF + (msg.payload + rest)))
  }

  ghost predicate IsHeadWithin(lim: ResponseLimits, lines: seq<string>, h: ParsedHead) {
    IsHead(lines, h) && LinesSize(lines) + 2 <= lim.maxHead
  }

  ghost predicate IsInterimHead(m: Method, lim: ResponseLimits, lines: seq<string>) {
    exists h :: IsHeadWithin(lim, lines, h) && Decide(m, lim, h.status, h.headers).Interim?
  }

  ghost predicate AreInterims(m: Method, lim: ResponseLimits, interims: seq<seq<string>>) {
    forall i :: 0 <= i < |interims| ==> IsInterimHead(m, lim, interims[i])
  }

  /** `payload` is a chunked body within the limits that carries `body`. */
  ghost predicate IsCodingOf(lim: ResponseLimits, payload: string, body: string) {
    exists k :: IsCoding(lim, k, 0) && payload == CodingThen(k, "") && body == ChunksBody(k.chunks)
  }

  /** `payload` carries `body` under framing decision `d`, with an end of its own. */
  ghost predicate Carries(lim: ResponseLimits, d: Decision, status: nat, payload: string, body: string) {
    match d
    case NoBody => payload == "" && body == ""
    case Fixed(n) => |payload| == n && body == payload
    case ChunkedCoding => IsCodingOf(lim, payload, body) && (status == 205 ==> body == "")
    case _ => false
  }

  function HeadOfResponse(r: Response): ParsedHead { ParsedHead(r.status, r.reason, r.headers) }

  function DecisionFor(m: Method, lim: ResponseLimits, r: Response): Decision {
    Decide(m, lim, r.status, r.headers)
  }

  ghost predicate IsMessage(m: Method, lim: ResponseLimits, msg: Message, r: Response) {
    && AreInterims(m, lim, msg.interims) && IsHeadWithin(lim, msg.head, HeadOfResponse(r))
    && Carries(lim, DecisionFor(m, lim, r), r.status, msg.payload, r.body)
  }

  /** A response whose body runs to the end of the stream. */
  ghost predicate IsCloseDelimited(m: Method, lim: ResponseLimits, msg: Message, r: Response) {
    && AreInterims(m, lim, msg.interims) && IsHeadWithin(lim, msg.head, HeadOfResponse(r))
    && DecisionFor(m, lim, r).UntilClose?
    && r.body == msg.payload && |r.body| <= lim.maxBody && (r.status == 205 ==> r.body == "")
  }

  // ---------- Heads ----------

  /** A state that has read its heads from `s`, leaving `t.buffer`. */
  ghost predicate HeadsRead(m: Method, lim: ResponseLimits, s: string, interims: seq<seq<string>>, lines: seq<string>,
                            t: State, st: State) {
    var h := HeadOfResponse(t.response);
    var d := Decide(m, lim, h.status, h.headers);
    && AreInterims(m, lim, interims) && IsHeadWithin(lim, lines, h) && !d.Reject? && !d.Interim?
    && s == InterimsThen(interims, LinesThen(lines, CRLF + t.buffer))
    && t == Begin(m, st.(buffer := t.buffer), h, d)
  }

  lemma BeginKeeps(m: Method, st: State, h: ParsedHead, d: Decision)
    ensures var t := Begin(m, st, h, d);
            HeadOfResponse(t.response) == h && t.buffer == st.buffer && t.stage != AtHead
  {
  }

  lemma ConsInterim(m: Method, lim: ResponseLimits, first: seq<string>, interims: seq<seq<string>>)
    requires IsInterimHead(m, lim, first) && AreInterims(m, lim, interims)
    ensures AreInterims(m, lim, [first] + interims)
    ensures forall tail ::
              InterimsThen([first] + interims, tail) == LinesThen(first, CRLF + InterimsThen(interims, tail))
  {
    hide IsInterimHead;
    assert ([first] + interims)[1..] == interims;
  }

  lemma {:induction false} HeadsSound(m: Method, lim: ResponseLimits, st: State)
    returns (interims: seq<seq<string>>, lines: seq<string>)
    requires st.stage == AtHead && ReadHeads(m, lim, st).Ok? && ReadHeads(m, lim, st).value.stage != AtHead
    ensures HeadsRead(m, lim, st.buffer, interims, lines, ReadHeads(m, lim, st).value, st)
    decreases |st.buffer|
  {
    hide ReadHeads, Find, HeadOf, Decide, IsHead, Begin;
    var end := Find(st.buffer, BLANK_LINE);
    if end < 0 {
      HeadsPending(m, lim, st, "");
    }
    HeadsUnfold(m, lim, st, end);
    lines := HeadSound(st.buffer);
    interims := [];
    var h, next := HeadOf(st.buffer[..end]).value, st.(buffer := st.buffer[end + 4..]);
    var d := Decide(m, lim, h.status, h.headers);
    if d.Interim? {
      var first := lines;
      assert IsHeadWithin(lim, first, h);
      interims, lines := HeadsSound(m, lim, next);
      ConsInterim(m, lim, first, interims);
      interims := [first] + interims;
    } else {
      BeginKeeps(m, next, h, d);
    }
  }

  /** One head of the grammar, at the front of the buffer. */
  lemma HeadRead(m: Method, lim: ResponseLimits, st: State, lines: seq<string>, h: ParsedHead, tail: string)
    requires st.stage == AtHead && IsHeadWithin(lim, lines, h) && st.buffer == LinesThen(lines, CRLF + tail)
    ensures ReadHeads(m, lim, st) ==
            match Decide(m, lim, h.status, h.headers)
            case Reject(e) => Err(e)
            case Interim => ReadHeads(m, lim, st.(buffer := tail))
            case _ => Ok(Begin(m, st.(buffer := tail), h, Decide(m, lim, h.status, h.headers)))
  {
    hide ReadHeads, Find, HeadOf, Decide, IsHead, Begin;
    HeadComplete(lines, h, tail);
    HeadsUnfold(m, lim, st, LinesSize(lines) - 2);
  }

  lemma {:induction false} HeadsComplete(m: Method, lim: ResponseLimits, st: State, interims: seq<seq<string>>,
                                         lines: seq<string>, h: ParsedHead, tail: string)
    requires st.stage == AtHead && AreInterims(m, lim, interims) && IsHeadWithin(lim, lines, h)
    requires var d := Decide(m, lim, h.status, h.headers); !d.Reject? && !d.Interim?
    requires st.buffer == InterimsThen(interims, LinesThen(lines, CRLF + tail))
    ensures ReadHeads(m, lim, st) == Ok(Begin(m, st.(buffer := tail), h, Decide(m, lim, h.status, h.headers)))
    decreases |interims|
  {
    hide ReadHeads, Decide, IsHeadWithin, Begin, LinesThen;
    if interims == [] {
      HeadRead(m, lim, st, lines, h, tail);
    } else {
      var next := InterimsThen(interims[1..], LinesThen(lines, CRLF + tail));
      var h1 :| IsHeadWithin(lim, interims[0], h1) && Decide(m, lim, h1.status, h1.headers).Interim?;
      HeadRead(m, lim, st, interims[0], h1, next);
      HeadsComplete(m, lim, st.(buffer := next), interims[1..], lines, h, tail);
    }
  }

  // ---------- Bodies ----------

  lemma CodingThenGlue(k: Coding, a: string)
    ensures CodingThen(k, a) == CodingThen(k, "") + a
  {
    assert (CRLF + "") + a == CRLF + a;
    LinesThenGlue(k.trailers, CRLF + "", a);
    var t := LinesThen(k.trailers, CRLF + "");
    Regroup(CRLF, t, a);
    Regroup(k.last, CRLF + t, a);
    ChunksThenGlue(k.chunks, k.last + (CRLF + t), a);
  }

  /** The state right after the final head. */
  ghost predicate AtBody(m: Method, lim: ResponseLimits, t: State) {
    && !DecisionFor(m, lim, t.response).Interim? && !DecisionFor(m, lim, t.response).Reject?
    && t == Begin(m, START.(buffer := t.buffer), HeadOfResponse(t.response), DecisionFor(m, lim, t.response))
  }

  lemma NotHeaderTerminated(m: Method, lim: ResponseLimits, r: Response)
    requires DecisionFor(m, lim, r).ChunkedCoding? || DecisionFor(m, lim, r).UntilClose?
    ensures !IsHeaderTerminated(m, r.status)
  {
    hide FramingOf, Lengths, Codings;
  }

  lemma CodingFound(lim: ResponseLimits, s: string) returns (payload: string)
    requires Chunked.Decode(lim, Chunked.START, s, "").status.Complete?
    ensures var run := Chunked.Decode(lim, Chunked.START, s, "");
            IsCodingOf(lim, payload, run.body) && s == payload + run.rest
  {
    hide Chunked.Decode, CodingThen, IsCoding;
    var run := Chunked.Decode(lim, Chunked.START, s, "");
    var k := ChunksSound(lim, s, "");
    CodingThenGlue(k, run.rest);
    assert "" + ChunksBody(k.chunks) == ChunksBody(k.chunks);
    payload := CodingThen(k, "");
  }

  lemma BodySound(m: Method, lim: ResponseLimits, t: State) returns (payload: string)
    requires AtBody(m, lim, t) && Deliver(lim, t).Ok? && Deliver(lim, t).value.stage == Complete
    ensures var e := Deliver(lim, t).value;
            && HeadOfResponse(e.response) == HeadOfResponse(t.response) && t.buffer == payload + e.buffer
            && Carries(lim, DecisionFor(m, lim, t.response), t.response.status, payload, e.response.body)
  {
    hide Decide, Chunked.Decode, IsCodingOf;
    var d, e := DecisionFor(m, lim, t.response), Deliver(lim, t).value;
    if d.ChunkedCoding? {
      payload := CodingFound(lim, t.buffer);
      NotHeaderTerminated(m, lim, t.response);
    } else {
      var n := if d.Fixed? then d.length else 0;
      payload := t.buffer[..n];
      CutOnce(t.buffer, n);
      assert "" + t.buffer[..n] == t.buffer[..n];
    }
  }

  lemma CodingDecodes(lim: ResponseLimits, payload: string, body: string, rest: string)
    requires IsCodingOf(lim, payload, body)
    ensures var run := Chunked.Decode(lim, Chunked.START, payload + rest, "");
            run.status.Complete? && run.rest == rest && run.body == body
  {
    hide Chunked.Decode, CodingThen, IsCoding;
    var k :| IsCoding(lim, k, 0) && payload == CodingThen(k, "") && body == ChunksBody(k.chunks);
    CodingThenGlue(k, rest);
    ChunksComplete(lim, k, rest, "");
    assert "" + ChunksBody(k.chunks) == ChunksBody(k.chunks);
  }

  lemma BodyComplete(m: Method, lim: ResponseLimits, t: State, payload: string, body: string, rest: string)
    requires AtBody(m, lim, t) && t.buffer == payload + rest
    requires Carries(lim, DecisionFor(m, lim, t.response), t.response.status, payload, body)
    ensures var e := Deliver(lim, t);
            && e.Ok? && e.value.stage == Complete && e.value.buffer == rest
            && e.value.response == t.response.(body := body)
  {
    hide Decide, Chunked.Decode, IsCodingOf;
    var d := DecisionFor(m, lim, t.response);
    CutAtSeam(payload, rest);
    assert "" + rest == rest && "" + payload == payload;
    if d.ChunkedCoding? {
      CodingDecodes(lim, payload, body, rest);
      NotHeaderTerminated(m, lim, t.response);
    }
  }

  // ---------- Whole messages ----------

  lemma FedFromStart(m: Method, lim: ResponseLimits, s: string)
    ensures var h := ReadHeads(m, lim, START.(buffer := s));
            Fed(m, lim, START, s) == if h.Err? then Err(h.error) else Deliver(lim, h.value)
  {
    assert "" + s == s;
  }

  lemma ParserSound(m: Method, lim: ResponseLimits, s: string) returns (msg: Message)
    requires Fed(m, lim, START, s).Ok? && Fed(m, lim, START, s).value.stage == Complete
    ensures var st := Fed(m, lim, START, s).value;
            IsMessage(m, lim, msg, st.response) && s == MessageThen(msg, st.buffer)
  {
    hide Fed, ReadHeads, Deliver, Decide, Begin, Carries;
    FedFromStart(m, lim, s);
    var start := START.(buffer := s);
    var t := ReadHeads(m, lim, start).value;
    PastHead(m, lim, t);
    var interims, lines := HeadsSound(m, lim, start);
    var payload := BodySound(m, lim, t);
    msg := Message(interims, lines, payload);
  }

  lemma CarriesEnds(lim: ResponseLimits, d: Decision, status: nat, payload: string, body: string)
    requires Carries(lim, d, status, payload, body)
    ensures !d.Reject? && !d.Interim?
  {
  }

  lemma ParserComplete(m: Method, lim: ResponseLimits, msg: Message, r: Response, rest: string)
    requires IsMessage(m, lim, msg, r)
    ensures var e := Fed(m, lim, START, MessageThen(msg, rest));
            e.Ok? && e.value.stage == Complete && e.value.response == r && e.value.buffer == rest
  {
    hide Fed, ReadHeads, Deliver, Decide, Carries, Begin, IsHeadWithin, AreInterims;
    var s, tail := MessageThen(msg, rest), msg.payload + rest;
    var h, d := HeadOfResponse(r), DecisionFor(m, lim, r);
    FedFromStart(m, lim, s);
    CarriesEnds(lim, d, r.status, msg.payload, r.body);
    HeadsComplete(m, lim, START.(buffer := s), msg.interims, msg.head, h, tail);
    var t := Begin(m, START.(buffer := tail), h, d);
    BeginKeeps(m, START.(buffer := tail), h, d);
    BodyComplete(m, lim, t, msg.payload, r.body, rest);
  }

  /**
   The parser completes on `s` with response `r` and leftover `rest` exactly when `s` is a message of
   the grammar that means `r`, followed by `rest`.
   */
  lemma ParserExact(m: Method, lim: ResponseLimits, s: string, r: Response, rest: string)
    ensures (var e := Fed(m, lim, START, s);
             e.Ok? && e.value.stage == Complete && e.value.response == r && e.value.buffer == rest)
            <==> exists msg :: IsMessage(m, lim, msg, r) && s == MessageThen(msg, rest)
  {
    hide Fed, IsMessage, MessageThen;
    var e := Fed(m, lim, START, s);
    if e.Ok? && e.value.stage == Complete && e.value.response == r && e.value.buffer == rest {
      var msg := ParserSound(m, lim, s);
    }
    if msg :| IsMessage(m, lim, msg, r) && s == MessageThen(msg, rest) {
      ParserComplete(m, lim, msg, r, rest);
    }
  }

  lemma UntilCloseDelivers(m: Method, lim: ResponseLimits, t: State)
    requires AtBody(m, lim, t)
    ensures Deliver(lim, t).Ok? ==>
            (Deliver(lim, t).value.stage == CloseDelimitedBody <==> DecisionFor(m, lim, t.response).UntilClose?)
    ensures DecisionFor(m, lim, t.response).UntilClose? ==>
            if |t.buffer| <= lim.maxBody && (t.response.status == 205 ==> t.buffer == "")
            then Deliver(lim, t) == Ok(t.(response := t.response.(body := t.buffer), buffer := ""))
            else Deliver(lim, t).Err?
  {
    hide Decide, Chunked.Decode;
    assert "" + t.buffer == t.buffer;
    if DecisionFor(m, lim, t.response).UntilClose? {
      NotHeaderTerminated(m, lim, t.response);
    }
  }

  lemma EofOnDelivered(lim: ResponseLimits, st: State)
    ensures Ended(lim, st).Ok? ==> st.stage == CloseDelimitedBody || st.stage == Complete
    ensures st.stage == CloseDelimitedBody && st.buffer == "" ==> Ended(lim, st) == Ok(st.(stage := Complete))
  {
    assert st.response.body + "" == st.response.body;
  }

  lemma EofSound(m: Method, lim: ResponseLimits, s: string) returns (msg: Message)
    requires Fed(m, lim, START, s).Ok? && Fed(m, lim, START, s).value.stage != Complete
    requires Ended(lim, Fed(m, lim, START, s).value).Ok?
    ensures IsCloseDelimited(m, lim, msg, Ended(lim, Fed(m, lim, START, s).value).value.response) &&
            s == MessageThen(msg, "")
  {
    hide Fed, ReadHeads, Deliver, Decide, Begin, Ended;
    FedFromStart(m, lim, s);
    var start := START.(buffer := s);
    var t := ReadHeads(m, lim, start).value;
    PastHead(m, lim, t);
    EofOnDelivered(lim, Fed(m, lim, START, s).value);
    var interims, lines := HeadsSound(m, lim, start);
    UntilCloseDelivers(m, lim, t);
    assert t.buffer + "" == t.buffer;
    msg := Message(interims, lines, t.buffer);
  }

  lemma EofComplete(m: Method, lim: ResponseLimits, msg: Message, r: Response)
    requires IsCloseDelimited(m, lim, msg, r)
    ensures var e := Fed(m, lim, START, MessageThen(msg, ""));
            e.Ok? && e.value.stage != Complete && Ended(lim, e.value).Ok? && Ended(lim, e.value).value.response == r
  {
    hide Fed, ReadHeads, Deliver, Decide, Begin, IsHeadWithin, AreInterims, Ended;
    var s, tail := MessageThen(msg, ""), msg.payload + "";
    var h, d := HeadOfResponse(r), DecisionFor(m, lim, r);
    FedFromStart(m, lim, s);
    HeadsComplete(m, lim, START.(buffer := s), msg.interims, msg.head, h, tail);
    var t := Begin(m, START.(buffer := tail), h, d);
    BeginKeeps(m, START.(buffer := tail), h, d);
    UntilCloseDelivers(m, lim, t);
    EofOnDelivered(lim, Deliver(lim, t).value);
  }

  /** What `finish_eof` adds to the messages that end themselves: the close-delimited ones, and no other. */
  lemma EofExact(m: Method, lim: ResponseLimits, s: string, r: Response)
    ensures (var e := Fed(m, lim, START, s);
             e.Ok? && e.value.stage != Complete && Ended(lim, e.value).Ok? && Ended(lim, e.value).value.response == r)
            <==> exists msg :: IsCloseDelimited(m, lim, msg, r) && s == MessageThen(msg, "")
  {
    hide Fed, IsCloseDelimited, MessageThen, Ended;
    var e := Fed(m, lim, START, s);
    if e.Ok? && e.value.stage != Complete && Ended(lim, e.value).Ok? && Ended(lim, e.value).value.response == r {
      var msg := EofSound(m, lim, s);
    }
    if msg :| IsCloseDelimited(m, lim, msg, r) && s == MessageThen(msg, "") {
      EofComplete(m, lim, msg, r);
    }
  }

  // ---------- Bodies that must be empty ----------

  predicate NeverHasBody(m: Method, status: nat) {
    m == Head || status == 101 || status == 204 || status == 205 || status == 304
  }

  /** A HEAD response, and a 101, 204, 205 or 304, is never delivered with a body. */
  lemma ForbiddenBodyIsEmpty(m: Method, lim: ResponseLimits, msg: Message, r: Response)
    requires NeverHasBody(m, r.status) && (IsMessage(m, lim, msg, r) || IsCloseDelimited(m, lim, msg, r))
    ensures r.body == ""
  {
    hide FramingOf, Lengths, Codings, IsHeadWithin, AreInterims, IsCodingOf, Number, IEquals;
  }

  // ---------- Framing ----------

  /** Every Content-Length is a number, no transfer coding is empty, and there is one Content-Length at most. */
  ghost predicate WellFramed(headers: Headers) {
    && (forall i :: 0 <= i < |headers| ==> FieldError(headers[i]).None?)
    && (forall i, j :: 0 <= i < j < |headers| ==>
       !Named(headers[i], "Content-Length") || !Named(headers[j], "Content-Length"))
  }

  lemma {:induction false} FirstErrorExact(headers: Headers, n: nat)
    requires n <= |headers|
    ensures FirstError(headers, n).None? <==> forall i :: n <= i < |headers| ==> FieldError(headers[i]).None?
    decreases |headers| - n
  {
    hide FieldError;
    if n < |headers| {
      FirstErrorExact(headers, n + 1);
    }
  }

  lemma {:induction false} CodingsPresent(headers: Headers, n: nat)
    requires n <= |headers|
    ensures CodingsUpTo(headers, n) == [] <==> forall i :: 0 <= i < n ==> !Named(headers[i], "Transfer-Encoding")
  {
    hide Named;
    if n > 0 {
      CodingsPresent(headers, n - 1);
      assert Tokens(headers[n - 1].value) != [];
    }
  }

  lemma FramingExact(headers: Headers)
    ensures FramingOf(headers).Ok? <==> WellFramed(headers)
  {
    hide Named, FieldError, FirstError, ValuesUpTo, InfoUpTo;
    FirstErrorExact(headers, 0);
    ValuesCounted(headers, |headers|, "Content-Length");
  }

  /** There is a Content-Length, and it says `n`. */
  ghost predicate SaysLength(headers: Headers, n: nat) {
    && Has(headers, "Content-Length")
    && forall i :: 0 <= i < |headers| && Named(headers[i], "Content-Length") ==> Number(headers[i].value, 10) == Some(n)
  }

  lemma LengthsAtMostOne(headers: Headers)
    requires FramingOf(headers).Ok?
    ensures |Lengths(headers)| <= 1
    ensures forall i :: 0 <= i < |headers| && Named(headers[i], "Content-Length") ==> Number(headers[i].value, 10).Some?
  {
    hide Named, Number;
    FirstErrorExact(headers, 0);
    forall i | 0 <= i < |headers| && Named(headers[i], "Content-Length") ensures Number(headers[i].value, 10).Some? {
      assert FieldError(headers[i]).None?;
    }
  }

  lemma LengthSays(headers: Headers, n: nat)
    requires FramingOf(headers).Ok?
    ensures SaysLength(headers, n) <==> Lengths(headers) != [] && Number(Lengths(headers)[0], 10).GetOr(0) == n
  {
    hide Named, Number, ValuesUpTo, FramingOf;
    ValuesCounted(headers, |headers|, "Content-Length");
    LengthsAtMostOne(headers);
  }

  /**
   When each framing is chosen, from the fields alone, whatever their order and number. Whatever is not
   listed is rejected: a Content-Length beside a Transfer-Encoding, a coding list that is not just chunked,
   framing fields on an interim response, a 101 or a 204, a length on a 205, a length above the limit.
   */
  lemma DecideExact(m: Method, lim: ResponseLimits, status: nat, headers: Headers, n: nat)
    ensures var d, byLength, byCoding := Decide(m, lim, status, headers), Has(headers, "Content-Length"),
            Has(headers, "Transfer-Encoding");
            var ok := WellFramed(headers) && !(byLength && byCoding);
            var interim := 100 <= status < 200 && status != 101;
            var headOnly := m == Head || status == 101 || status == 204 || status == 304;
            var mayHaveBody := ok && !interim && !headOnly;
            && (d.Interim? <==> ok && interim && !byLength && !byCoding)
            && (d.UntilClose? <==> mayHaveBody && !byLength && !byCoding)
            && (d.ChunkedCoding? <==> mayHaveBody && |Codings(headers)| == 1 && IEquals(Codings(headers)[0], "chunked"))
            && (d == Fixed(n) <==> mayHaveBody && status != 205 && 0 < n <= lim.maxBody && SaysLength(headers, n))
            && (d.NoBody? <==> || (mayHaveBody && SaysLength(headers, 0))
                               || (&& ok && !interim && headOnly
                                   && (status == 101 || status == 204 ==> !byLength && !byCoding)))
  {
    hide Named, FramingOf, ValuesUpTo, CodingsUpTo, Number, IEquals, WellFramed;
    FramingExact(headers);
    ValuesCounted(headers, |headers|, "Content-Length");
    CodingsPresent(headers, |headers|);
    if FramingOf(headers).Ok? {
      LengthsAtMostOne(headers);
      LengthSays(headers, n);
      LengthSays(headers, 0);
    }
  }
}
