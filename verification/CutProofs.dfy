/** Where cuts in a byte stream show: every cutting of a stream is parsed as the whole is, with two exceptions
 told exactly, and from the text alone: a lone CR that is completed, and a 205 whose forbidden data comes first. */
module CutProofs {
  import opened Results
  import opened Text
  import opened Limits
  import opened Heads
  import opened HeadProofs
  import opened Parser
  import opened ParserProofs
  import opened MessageProofs
  import Chunked
  import ChunkLine
  import opened ChunkedProofs
  import opened VerdictProofs

  // ---------- A chunked body that has begun ----------

  ghost predicate ChunkedParts(m: Method, lim: ResponseLimits, text: string, h: ParsedHead, tail: string,
                               interims: seq<seq<string>>, lines: seq<string>) {
    && AreInterims(m, lim, interims) && IsHeadWithin(lim, lines, h)
    && text == InterimsThen(interims, LinesThen(lines, CRLF + tail))
  }

  /** Interim heads, a final head `h` that announces a chunked body, and `tail` of that body. */
  ghost predicate IsChunkedSoFar(m: Method, lim: ResponseLimits, text: string, h: ParsedHead, tail: string) {
    && Decide(m, lim, h.status, h.headers).ChunkedCoding?
    && exists interims: seq<seq<string>>, lines: seq<string> :: ChunkedParts(m, lim, text, h, tail, interims, lines)
  }

  /** The text ends at a lone CR after a size line of exactly the allowed length. */
  ghost predicate IsLoneCrCut(m: Method, lim: ResponseLimits, text: string) {
    exists h: ParsedHead, tail: string :: IsChunkedSoFar(m, lim, text, h, tail) && EndsAtLoneCr(lim, tail)
  }

  /**
   The text is a chunked 205 whose body bytes so far are chunked and hold data, and with `rest` no longer are
   chunked: the decoder's error comes before the test for a forbidden body.
   */
  ghost predicate IsPreempted(m: Method, lim: ResponseLimits, text: string, rest: string) {
    exists h: ParsedHead, tail: string ::
      && IsChunkedSoFar(m, lim, text, h, tail) && h.status == 205
      && !Breaks(lim, tail) && HasData(lim, tail) && Breaks(lim, tail + rest)
  }

  /** What a chunked body `tail` fails with: what breaks it, or that it must not have data and has. */
  ghost predicate FailsWith(lim: ResponseLimits, h: ParsedHead, tail: string, e: ErrorCode) {
    IsBroken(lim, tail, e) || (e == MalformedResponse && h.status == 205 && !Breaks(lim, tail) && HasData(lim, tail))
  }

  /** A lone CR, then an LF, and the whole does not fail with the limit error, as the front does. */
  ghost predicate IsSaved(m: Method, lim: ResponseLimits, text: string, rest: string) {
    exists h: ParsedHead, tail: string ::
      && IsChunkedSoFar(m, lim, text, h, tail) && EndsAtLoneCr(lim, tail)
      && rest != "" && rest[0] == '\n' && !IsBroken(lim, tail + rest, ResponseLimitExceeded)
  }

  /** What a whole makes of a lone CR before `rest`, the line before that CR being `line`. */
  ghost predicate IsOutcome(lim: ResponseLimits, h: ParsedHead, tail: string, chunks: seq<Chunk>, line: string,
                            rest: string, all: Result<State>) {
    if rest == "" || rest[0] != '\n' then all == Err(ResponseLimitExceeded)
    else match ChunkLine.ChunkSize(line)
         case Err(e) => all == Err(e)
         case Ok(size) =>
           if size > 0 && |ChunksBody(chunks)| + size > lim.maxBody then all == Err(ResponseLimitExceeded)
           else forall e :: all == Err(e) <==> FailsWith(lim, h, tail + rest, e)
  }

  /** `all` is what the text and `rest` together come to, the text ending at a lone CR. */
  ghost predicate ComesTo(m: Method, lim: ResponseLimits, text: string, rest: string, all: Result<State>) {
    exists h: ParsedHead, tail: string, chunks: seq<Chunk>, line: string ::
      && IsChunkedSoFar(m, lim, text, h, tail) && LoneCrParts(lim, tail, 0, chunks, line)
      && IsOutcome(lim, h, tail, chunks, line, rest, all)
  }

  /** The parser's state when a chunked body has begun. */
  predicate ChunkedState(t: State, h: ParsedHead, tail: string) {
    && t.stage == ChunkedBody && t.buffer == tail && t.decoder == Chunked.START && t.response.body == ""
    && t.bodyForbidden == (h.status == 205)
  }

  lemma ChunkedBegins(m: Method, lim: ResponseLimits, h: ParsedHead, tail: string)
    requires Decide(m, lim, h.status, h.headers).ChunkedCoding?
    ensures ChunkedState(Begin(m, START.(buffer := tail), h, Decide(m, lim, h.status, h.headers)), h, tail)
  {
    hide Decide;
    NotHeaderTerminated(m, lim, Response(h.status, h.reason, h.headers, ""));
  }

  lemma BeginStage(m: Method, st: State, h: ParsedHead, d: Decision)
    ensures Begin(m, st, h, d).stage == ChunkedBody <==> d.ChunkedCoding?
  {
  }

  lemma BeginFromStart(m: Method, a: State, b: State)
    requires a == b
    ensures forall h, d :: Begin(m, a, h, d) == Begin(m, b, h, d)
  {
  }

  lemma ChunkedRead(m: Method, lim: ResponseLimits, text: string, h: ParsedHead, tail: string)
    requires IsChunkedSoFar(m, lim, text, h, tail)
    ensures var r := ReadHeads(m, lim, More(START, text)); r.Ok? && ChunkedState(r.value, h, tail)
  {
    hide ReadHeads, Decide, Begin, IsHeadWithin, AreInterims, LinesThen, ChunkedState;
    var interims: seq<seq<string>>, lines: seq<string> :| ChunkedParts(m, lim, text, h, tail, interims, lines);
    CutWhole(text);
    HeadsComplete(m, lim, More(START, text), interims, lines, h, tail);
    ChunkedBegins(m, lim, h, tail);
    BeginFromStart(m, More(START, text).(buffer := tail), START.(buffer := tail));
  }

  lemma ChunkedFound(m: Method, lim: ResponseLimits, text: string) returns (h: ParsedHead, tail: string)
    requires var r := ReadHeads(m, lim, More(START, text)); r.Ok? && r.value.stage == ChunkedBody
    ensures IsChunkedSoFar(m, lim, text, h, tail)
    ensures ChunkedState(ReadHeads(m, lim, More(START, text)).value, h, tail)
  {
    hide ReadHeads, Decide, Begin, IsHeadWithin, AreInterims, LinesThen, ChunkedState;
    var st := More(START, text);
    var t := ReadHeads(m, lim, st).value;
    CutWhole(text);
    var interims, lines := HeadsSound(m, lim, st);
    h, tail := HeadOfResponse(t.response), t.buffer;
    BeginStage(m, st.(buffer := tail), h, Decide(m, lim, h.status, h.headers));
    assert ChunkedParts(m, lim, text, h, tail, interims, lines);
    ChunkedBegins(m, lim, h, tail);
  }

  lemma {:induction false} InterimsThenGlue(interims: seq<seq<string>>, t: string, a: string)
    ensures InterimsThen(interims, t + a) == InterimsThen(interims, t) + a
  {
    hide LinesThen;
    if interims != [] {
      var rest := InterimsThen(interims[1..], t);
      InterimsThenGlue(interims[1..], t, a);
      Regroup(CRLF, rest, a);
      LinesThenGlue(interims[0], CRLF + rest, a);
    }
  }

  /** More bytes are more of the chunked body. */
  lemma ChunkedMore(m: Method, lim: ResponseLimits, text: string, h: ParsedHead, tail: string, rest: string)
    requires IsChunkedSoFar(m, lim, text, h, tail)
    ensures IsChunkedSoFar(m, lim, text + rest, h, tail + rest)
  {
    hide Decide, IsHeadWithin, AreInterims, LinesThen, InterimsThen;
    var interims: seq<seq<string>>, lines: seq<string> :| ChunkedParts(m, lim, text, h, tail, interims, lines);
    Regroup(CRLF, tail, rest);
    LinesThenGlue(lines, CRLF + tail, rest);
    InterimsThenGlue(interims, LinesThen(lines, CRLF + tail), rest);
    assert ChunkedParts(m, lim, text + rest, h, tail + rest, interims, lines);
  }

  /** Feeding a chunked body from the start is decoding it. */
  lemma ChunkedFeeds(m: Method, lim: ResponseLimits, text: string, h: ParsedHead, tail: string)
    requires IsChunkedSoFar(m, lim, text, h, tail)
    ensures var run, fed := Chunked.Decode(lim, Chunked.START, tail, ""), Fed(m, lim, START, text);
            if run.status.Failed? then fed == Err(run.status.error)
            else if h.status == 205 && run.body != "" then fed == Err(MalformedResponse)
            else fed.Ok? && (fed.value.stage == Complete <==> run.status.Complete?)
  {
    hide ReadHeads, Chunked.Decode, IsChunkedSoFar;
    ChunkedRead(m, lim, text, h, tail);
  }

  /** The outcome of a chunked body, from its text: the code it fails with, or else whether it is complete. */
  lemma ChunkedOutcome(m: Method, lim: ResponseLimits, text: string, h: ParsedHead, tail: string)
    requires IsChunkedSoFar(m, lim, text, h, tail)
    ensures forall e :: Fed(m, lim, START, text) == Err(e) <==> FailsWith(lim, h, tail, e)
    ensures var fed := Fed(m, lim, START, text);
            fed.Ok? ==> (fed.value.stage == Complete <==> HoldsCoding(lim, tail))
  {
    hide Fed, Chunked.Decode, IsChunkedSoFar, IsBroken, IsOpen, HoldsCoding, HasData;
    ChunkedFeeds(m, lim, text, h, tail);
    VerdictExact(lim, tail);
    OneVerdict(lim, tail);
    DataExact(lim, tail);
    ChunkedProofs.DecodeErrors(lim, Chunked.START, tail, "");
  }

  lemma TailExceptions(lim: ResponseLimits, tail: string, rest: string)
    ensures LoneCr(lim, Chunked.Decode(lim, Chunked.START, tail, "")) <==> EndsAtLoneCr(lim, tail)
    ensures Chunked.Decode(lim, Chunked.START, tail, "").status.Failed? <==> Breaks(lim, tail)
    ensures Chunked.Decode(lim, Chunked.START, tail + rest, "").status.Failed? <==> Breaks(lim, tail + rest)
    ensures Chunked.Decode(lim, Chunked.START, tail, "").body != "" <==> HasData(lim, tail)
    ensures EndsAtLoneCr(lim, tail) ==> IsBroken(lim, tail, ResponseLimitExceeded)
  {
    hide Chunked.Decode, EndsAtLoneCr, IsBroken, IsOpen, HasData;
    LoneCrExact(lim, tail);
    VerdictExact(lim, tail);
    VerdictExact(lim, tail + rest);
    DataExact(lim, tail);
  }

  /** The two exceptions of a cut, as the parser meets them and as the text shows them. */
  lemma ExceptionsExact(m: Method, lim: ResponseLimits, text: string, rest: string)
    ensures LeavesLoneCr(m, lim, More(START, text)) <==> IsLoneCrCut(m, lim, text)
    ensures PreemptedBy(m, lim, More(START, text), rest) <==> IsPreempted(m, lim, text, rest)
  {
    hide ReadHeads, Chunked.Decode, EndsAtLoneCr, IsChunkedSoFar, LoneCr, IsBroken, HasData;
    var r := ReadHeads(m, lim, More(START, text));
    if r.Ok? && r.value.stage == ChunkedBody {
      var h, tail := ChunkedFound(m, lim, text);
      TailExceptions(lim, tail, rest);
    }
    forall h: ParsedHead, tail: string | IsChunkedSoFar(m, lim, text, h, tail)
      ensures r.Ok? && ChunkedState(r.value, h, tail)
    {
      ChunkedRead(m, lim, text, h, tail);
    }
    if h: ParsedHead, tail: string :| IsChunkedSoFar(m, lim, text, h, tail) {
      TailExceptions(lim, r.value.buffer, rest);
    }
  }

  /** All the chunked bodies of one text are the same, but for the fields of the head. */
  lemma OneTail(m: Method, lim: ResponseLimits, text: string, h: ParsedHead, tail: string, h': ParsedHead,
                tail': string)
    requires IsChunkedSoFar(m, lim, text, h, tail) && IsChunkedSoFar(m, lim, text, h', tail')
    ensures tail == tail' && (h.status == 205 <==> h'.status == 205)
  {
    hide ReadHeads, IsChunkedSoFar;
    ChunkedRead(m, lim, text, h, tail);
    ChunkedRead(m, lim, text, h', tail');
  }

  /** The whole, given how the body ends at a lone CR before `b`. */
  lemma LoneCrOutcome(m: Method, lim: ResponseLimits, a: string, b: string, h: ParsedHead, tail: string,
                      chunks: seq<Chunk>, line: string)
    requires IsChunkedSoFar(m, lim, a, h, tail) && LoneCrParts(lim, tail, 0, chunks, line)
    ensures IsOutcome(lim, h, tail, chunks, line, b, Fed(m, lim, START, a + b))
  {
    hide Fed, Chunked.Decode, IsChunkedSoFar, LoneCrParts, ChunkLine.ChunkSize, FailsWith;
    ChunkedMore(m, lim, a, h, tail, b);
    ChunkedFeeds(m, lim, a + b, h, tail + b);
    ChunkedOutcome(m, lim, a + b, h, tail + b);
    LoneCrGoesOn(lim, tail, b, chunks, line);
  }

  lemma OutcomeWithoutLf(lim: ResponseLimits, h: ParsedHead, tail: string, chunks: seq<Chunk>, line: string,
                         b: string, all: Result<State>)
    requires IsOutcome(lim, h, tail, chunks, line, b, all)
    ensures b == "" || b[0] != '\n' ==> all == Err(ResponseLimitExceeded)
  {
  }

  /** A front that ends at a lone CR: its error, what the whole comes to, and when that is the same. */
  lemma LoneCrCut(m: Method, lim: ResponseLimits, a: string, b: string)
    requires IsLoneCrCut(m, lim, a)
    ensures Fed(m, lim, START, a) == Err(ResponseLimitExceeded) && !IsPreempted(m, lim, a, b)
    ensures var all := Fed(m, lim, START, a + b);
            ComesTo(m, lim, a, b, all) && (all == Err(ResponseLimitExceeded) <==> !IsSaved(m, lim, a, b))
  {
    hide Fed, IsChunkedSoFar, LoneCrParts, IsBroken, HasData, IsOutcome;
    var h: ParsedHead, tail: string :| IsChunkedSoFar(m, lim, a, h, tail) && EndsAtLoneCr(lim, tail);
    var chunks: seq<Chunk>, line: string :| LoneCrParts(lim, tail, 0, chunks, line);
    forall h': ParsedHead, tail': string | IsChunkedSoFar(m, lim, a, h', tail') ensures tail' == tail {
      OneTail(m, lim, a, h, tail, h', tail');
    }
    TailExceptions(lim, tail, b);
    ChunkedOutcome(m, lim, a, h, tail);
    LoneCrOutcome(m, lim, a, b, h, tail, chunks, line);
    ChunkedMore(m, lim, a, h, tail, b);
    ChunkedOutcome(m, lim, a + b, h, tail + b);
    OutcomeWithoutLf(lim, h, tail, chunks, line, b, Fed(m, lim, START, a + b));
  }

  lemma SavedIsLoneCr(m: Method, lim: ResponseLimits, a: string, b: string)
    ensures IsSaved(m, lim, a, b) ==> IsLoneCrCut(m, lim, a)
  {
    hide IsChunkedSoFar, EndsAtLoneCr, IsBroken;
  }

  lemma PreemptedFails(m: Method, lim: ResponseLimits, a: string, b: string)
    ensures IsPreempted(m, lim, a, b) ==> Fed(m, lim, START, a) == Err(MalformedResponse)
  {
    hide Fed, IsChunkedSoFar, Breaks, HasData, IsBroken;
    if h: ParsedHead, tail: string :|
        IsChunkedSoFar(m, lim, a, h, tail) && h.status == 205 && !Breaks(lim, tail) && HasData(lim, tail) {
      ChunkedOutcome(m, lim, a, h, tail);
    }
  }

  /**
   One cut, anywhere. A front that parses is carried on as in the whole. A front that fails settles the error of the
   whole, unless its lone CR is saved or its code is preempted by `b`, and then it does not. A front that fails and
   does not end at a lone CR always makes the whole fail; one that does, by the line before that CR.
   */
  lemma CutExact(m: Method, lim: ResponseLimits, a: string, b: string)
    ensures var one, all := Fed(m, lim, START, a), Fed(m, lim, START, a + b);
            && (one.Ok? ==> all == Fed(m, lim, one.value, b) && !IsSaved(m, lim, a, b) && !IsPreempted(m, lim, a, b))
            && (one.Err? ==> (all == one <==> !IsSaved(m, lim, a, b) && !IsPreempted(m, lim, a, b)))
            && (one.Err? && !IsLoneCrCut(m, lim, a) ==> all.Err?)
            && (IsLoneCrCut(m, lim, a) ==> one == Err(ResponseLimitExceeded) && ComesTo(m, lim, a, b, all))
  {
    hide IsLoneCrCut, IsPreempted, IsSaved, Fed, PreemptedBy, ComesTo;
    FeedSplit(m, lim, START, a, b);
    ExceptionsExact(m, lim, a, b);
    SavedIsLoneCr(m, lim, a, b);
    PreemptedFails(m, lim, a, b);
    if IsLoneCrCut(m, lim, a) {
      LoneCrCut(m, lim, a, b);
    }
  }

  // ---------- Any cutting ----------

  ghost predicate LoneCrAfter(m: Method, lim: ResponseLimits, cuts: seq<string>, k: nat)
    requires k <= |cuts|
  {
    IsLoneCrCut(m, lim, Concat(cuts[..k]))
  }

  /** Some prefix of the cutting ends at a lone CR after a size line of exactly the allowed length. */
  ghost predicate SomeLoneCr(m: Method, lim: ResponseLimits, cuts: seq<string>) {
    exists k :: 0 < k <= |cuts| && LoneCrAfter(m, lim, cuts, k)
  }

  lemma LoneCrFront(m: Method, lim: ResponseLimits, cuts: seq<string>)
    requires cuts != []
    ensures LoneCrAfter(m, lim, cuts, |cuts|) == IsLoneCrCut(m, lim, Concat(cuts))
    ensures forall k :: 0 < k < |cuts| ==> LoneCrAfter(m, lim, cuts, k) == LoneCrAfter(m, lim, cuts[..|cuts| - 1], k)
  {
    hide IsLoneCrCut, Concat;
    assert cuts[..|cuts|] == cuts;
    forall k | 0 < k < |cuts| ensures LoneCrAfter(m, lim, cuts, k) == LoneCrAfter(m, lim, cuts[..|cuts| - 1], k) {
      assert cuts[..|cuts| - 1][..k] == cuts[..k];
    }
  }

  lemma SomeLoneCrStep(m: Method, lim: ResponseLimits, cuts: seq<string>)
    requires cuts != []
    ensures SomeLoneCr(m, lim, cuts) <==> SomeLoneCr(m, lim, cuts[..|cuts| - 1]) || IsLoneCrCut(m, lim, Concat(cuts))
  {
    hide LoneCrAfter, IsLoneCrCut;
    var n, front := |cuts|, cuts[..|cuts| - 1];
    LoneCrFront(m, lim, cuts);
    if k :| 0 < k <= n - 1 && LoneCrAfter(m, lim, front, k) {
      assert LoneCrAfter(m, lim, cuts, k);
    }
    if k :| 0 < k <= n && LoneCrAfter(m, lim, cuts, k) {
      assert k < n ==> LoneCrAfter(m, lim, front, k);
    }
  }

  lemma NoCuts(m: Method, lim: ResponseLimits)
    ensures !SomeLoneCr(m, lim, [])
  {
  }

  /** A front that fails in one feed fails in pieces too, and a front left at a lone CR is such a front. */
  lemma FrontFails(m: Method, lim: ResponseLimits, front: seq<string>)
    requires Fed(m, lim, START, Concat(front)).Err? && IsLoneCrCut(m, lim, Concat(front))
    ensures !FedAll(m, lim, front).Ok? && SomeLoneCr(m, lim, front)
  {
    hide Fed, IsLoneCrCut;
    Segmentation(m, lim, front);
    if front == [] {
      StartTakesNothing(m, lim);
    }
    assert front[..|front|] == front;
    assert LoneCrAfter(m, lim, front, |front|);
  }

  /** If the whole parses in one feed, a cutting of it parses exactly unless some cut leaves a lone CR. */
  lemma {:induction false} SegmentationExact(m: Method, lim: ResponseLimits, cuts: seq<string>)
    requires Fed(m, lim, START, Concat(cuts)).Ok?
    ensures FedAll(m, lim, cuts).Ok? <==> !SomeLoneCr(m, lim, cuts)
  {
    hide Fed, IsLoneCrCut, SomeLoneCr, IsPreempted, IsSaved, ComesTo;
    if cuts == [] {
      NoCuts(m, lim);
    } else {
      var front, last := cuts[..|cuts| - 1], cuts[|cuts| - 1];
      SomeLoneCrStep(m, lim, cuts);
      Segmentation(m, lim, front);
      CutExact(m, lim, Concat(front), last);
      CutExact(m, lim, Concat(cuts), "");
      if Fed(m, lim, START, Concat(front)).Ok? {
        SegmentationExact(m, lim, front);
      } else {
        FrontFails(m, lim, front);
      }
    }
  }

  lemma ConcatStep(cuts: seq<string>)
    requires cuts != []
    ensures Concat(cuts) == Concat(cuts[..|cuts| - 1]) + cuts[|cuts| - 1]
  {
  }

  lemma ConcatNothing()
    ensures Concat([]) == ""
  {
  }

  lemma {:induction false} ConcatCut(cuts: seq<string>, k: nat)
    requires k <= |cuts|
    ensures Concat(cuts) == Concat(cuts[..k]) + Concat(cuts[k..])
    decreases |cuts|
  {
    hide Concat;
    if k == |cuts| {
      assert cuts[..k] == cuts && cuts[k..] == [];
      ConcatNothing();
      assert Concat(cuts) + "" == Concat(cuts);
    } else {
      var front := cuts[..|cuts| - 1];
      ConcatCut(front, k);
      ConcatStep(cuts);
      ConcatStep(cuts[k..]);
      assert front[..k] == cuts[..k] && front[k..] == cuts[k..][..|cuts| - k - 1];
      Regroup(Concat(cuts[..k]), Concat(front[k..]), cuts[|cuts| - 1]);
    }
  }

  /** The piece whose feed fails: the ones before it parse, and it settles the error. */
  lemma {:induction false} FirstFailure(m: Method, lim: ResponseLimits, cuts: seq<string>) returns (k: nat)
    requires FedAll(m, lim, cuts).Err?
    ensures 0 < k <= |cuts| && FedAll(m, lim, cuts[..k - 1]).Ok? && FedAll(m, lim, cuts[..k]) == FedAll(m, lim, cuts)
  {
    hide Fed;
    var n := |cuts|;
    if FedAll(m, lim, cuts[..n - 1]).Ok? {
      k := n;
      assert cuts[..n] == cuts;
    } else {
      k := FirstFailure(m, lim, cuts[..n - 1]);
      assert cuts[..n - 1][..k - 1] == cuts[..k - 1] && cuts[..n - 1][..k] == cuts[..k];
    }
  }

  /**
   Whenever a cutting fails, at piece `k`, the pieces up to there fail the whole in the same way exactly unless what
   follows saves their lone CR or preempts their code. If they do not end at a lone CR the whole fails anyway; if
   they do, it comes to what the line before that CR comes to.
   */
  lemma SegmentationErrors(m: Method, lim: ResponseLimits, cuts: seq<string>) returns (k: nat)
    requires FedAll(m, lim, cuts).Err?
    ensures 0 < k <= |cuts| && FedAll(m, lim, cuts[..k - 1]).Ok? && FedAll(m, lim, cuts[..k]).Err?
    ensures var all, done, rest := Fed(m, lim, START, Concat(cuts)), Concat(cuts[..k]), Concat(cuts[k..]);
            && (all == FedAll(m, lim, cuts) <==> !IsSaved(m, lim, done, rest) && !IsPreempted(m, lim, done, rest))
            && if IsLoneCrCut(m, lim, done)
               then FedAll(m, lim, cuts) == Err(ResponseLimitExceeded) && ComesTo(m, lim, done, rest, all)
               else all.Err?
  {
    hide Fed, IsLoneCrCut, IsPreempted, IsSaved, ComesTo, Concat;
    k := FirstFailure(m, lim, cuts);
    var done := cuts[..k];
    assert done[..k - 1] == cuts[..k - 1];
    Segmentation(m, lim, cuts[..k - 1]);
    ConcatStep(done);
    CutExact(m, lim, Concat(cuts[..k - 1]), cuts[k - 1]);
    ConcatCut(cuts, k);
    CutExact(m, lim, Concat(done), Concat(cuts[k..]));
  }

  // ---------- Both exceptions happen ----------

  const SAMPLE_FIELD := "Transfer-Encoding: chunked"

  function SampleLine(status: nat): string { VERSION + if status == 205 then "205" else "200" }

  /** The head of a response with status 200 or 205 and a chunked body, as bytes. */
  function SampleHead(status: nat): string {
    SampleLine(status) + (CRLF + (SAMPLE_FIELD + BLANK_LINE))
  }

  lemma NoInterims(lim: ResponseLimits, tail: string)
    ensures AreInterims(Get, lim, []) && InterimsThen([], tail) == tail
  {
  }

  lemma SampleText(status: nat, lines: seq<string>, tail: string)
    requires lines == [SampleLine(status), SAMPLE_FIELD]
    ensures LinesThen(lines, CRLF + tail) == SampleHead(status) + tail
    ensures LinesSize(lines) == |SampleLine(status)| + 30
  {
    hide SampleLine;
    assert lines[1..] == [SAMPLE_FIELD] && lines[1..][1..] == [];
    assert LinesThen([], CRLF + tail) == CRLF + tail && LinesSize([]) == 0;
    assert BLANK_LINE + tail == CRLF + (CRLF + tail);
    Regroup(SAMPLE_FIELD, BLANK_LINE, tail);
    Regroup(CRLF, SAMPLE_FIELD + BLANK_LINE, tail);
    Regroup(SampleLine(status), CRLF + (SAMPLE_FIELD + BLANK_LINE), tail);
    assert LinesSize(lines[1..]) == |SAMPLE_FIELD| + 2;
  }

  lemma SampleFieldParts(f: Field)
    requires f == Field("Transfer-Encoding", "chunked")
    ensures FieldLineParts(SAMPLE_FIELD, f, " ", "")
  {
    assert SAMPLE_FIELD == "Transfer-Encoding" + (":" + (" " + "chunked" + ""));
  }

  lemma SampleCode(status: nat, code: string)
    requires (status == 200 && code == "200") || (status == 205 && code == "205")
    ensures |code| == 3 && IsNumeral(code, 10) && NatOf(code, 10) == status
  {
    hide NatUpTo;
    NatOfNone(code, 10);
    NatStep(code, 1, 10);
    NatStep(code, 2, 10);
    NatStep(code, 3, 10);
  }

  lemma SampleLines(lim: ResponseLimits, status: nat, lines: seq<string>, h: ParsedHead)
    requires lim.maxHead >= 100 && (status == 200 || status == 205)
    requires lines == [SampleLine(status), SAMPLE_FIELD]
    requires h == ParsedHead(status, "", [Field("Transfer-Encoding", "chunked")])
    ensures IsHeadWithin(lim, lines, h)
  {
    hide NatOf, NatUpTo, LinesThen, LinesSize, SampleHead;
    SampleText(status, lines, "");
    var code := if status == 205 then "205" else "200";
    SampleCode(status, code);
    assert StatusLineParts(lines[0], status, "", code);
    SampleFieldParts(h.headers[0]);
    assert lines[1..][0] == lines[1];
  }

  lemma SampleNames(f: Field)
    requires f == Field("Transfer-Encoding", "chunked")
    ensures Named(f, "Transfer-Encoding") && !Named(f, "Content-Length") && IEquals("chunked", "chunked")
  {
  }

  lemma ChunkedTokens()
    ensures Tokens("chunked") == ["chunked"]
  {
    hide Until, Trimmed;
    var s := "chunked";
    UntilIs(s, 0, ",", 7);
    TokensUnfold(s, 0);
    TokensEnd(s, 8);
    assert s[0..7] == s && "" + s + "" == s;
    TrimmedUnique("", s, "");
  }

  lemma SampleDecision(lim: ResponseLimits, status: nat, h: ParsedHead)
    requires (status == 200 || status == 205) && h == ParsedHead(status, "", [Field("Transfer-Encoding", "chunked")])
    ensures Decide(Get, lim, h.status, h.headers).ChunkedCoding?
  {
    hide Decide, Tokens, FramingOf, Number;
    var f := h.headers[0];
    ChunkedTokens();
    SampleNames(f);
    assert CodingsUpTo(h.headers, 1) == CodingsUpTo(h.headers, 0) + Tokens(f.value);
    assert [] + Tokens(f.value) == ["chunked"];
    DecideExact(Get, lim, status, h.headers, 0);
  }

  lemma SampleIsChunked(lim: ResponseLimits, status: nat, tail: string) returns (h: ParsedHead)
    requires lim.maxHead >= 100 && (status == 200 || status == 205)
    ensures h.status == status && IsChunkedSoFar(Get, lim, SampleHead(status) + tail, h, tail)
  {
    hide IsHeadWithin, AreInterims, Decide;
    h := ParsedHead(status, "", [Field("Transfer-Encoding", "chunked")]);
    var lines := [SampleLine(status), SAMPLE_FIELD];
    SampleDecision(lim, status, h);
    SampleLines(lim, status, lines, h);
    SampleText(status, lines, tail);
    NoInterims(lim, LinesThen(lines, CRLF + tail));
    assert ChunkedParts(Get, lim, SampleHead(status) + tail, h, tail, [], lines);
  }

  lemma TwoPieces(m: Method, lim: ResponseLimits, a: string, b: string)
    requires Fed(m, lim, START, a).Err?
    ensures FedAll(m, lim, [a, b]) == Fed(m, lim, START, a) && Concat([a, b]) == a + b
  {
    hide Fed;
    assert [a, b][..1] == [a] && [a][..0] == [];
    assert FedAll(m, lim, []) == Ok(START) && FedAll(m, lim, [a]) == Fed(m, lim, START, a);
    assert Concat([]) == "" && "" + a == a && Concat([a]) == a;
  }

  /** Real bytes: a 200 whose size line "0" has the one permitted byte, cut between its CR and LF. */
  lemma LoneCrCutWitness(lim: ResponseLimits)
    requires lim.maxHead >= 100 && lim.maxChunkLine == 1 && lim.maxTrailer >= 2
    ensures var cuts := [SampleHead(200) + "0\r", "\n\r\n"];
            && FedAll(Get, lim, cuts) == Err(ResponseLimitExceeded)
            && Fed(Get, lim, START, Concat(cuts)).Ok? && Fed(Get, lim, START, Concat(cuts)).value.stage == Complete
  {
    hide Fed, Chunked.Decode, IsChunkedSoFar, EndsAtLoneCr, ComesTo;
    var a, b := SampleHead(200) + "0\r", "\n\r\n";
    var h := SampleIsChunked(lim, 200, "0\r");
    ChunkedProofs.LoneCrWitness(lim);
    CutExact(Get, lim, a, b);
    ChunkedMore(Get, lim, a, h, "0\r", b);
    ChunkedFeeds(Get, lim, a + b, h, "0\r" + b);
    TwoPieces(Get, lim, a, b);
  }

  lemma NoSize(lim: ResponseLimits)
    requires lim.maxChunkLine == 1
    ensures LoneCrParts(lim, "z\r", 0, [], "z") && ChunkLine.ChunkSize("z") == Err(InvalidChunkSize)
  {
    hide Find, NatUpTo;
    FindRun("z\r", CRLF);
    assert "z\r"[0] != CRLF[0];
    assert "z" + "\r" == "z\r";
    UntilIs("z", 0, ";", 1);
    assert "z"[..1] == "z";
  }

  /** Both fail, with different codes: the size line "z" is too long with its CR, and is no size line with its CRLF. */
  lemma LoneCrCodeWitness(lim: ResponseLimits)
    requires lim.maxHead >= 100 && lim.maxChunkLine == 1
    ensures var cuts := [SampleHead(200) + "z\r", "\n"];
            FedAll(Get, lim, cuts) == Err(ResponseLimitExceeded) &&
              Fed(Get, lim, START, Concat(cuts)) == Err(InvalidChunkSize)
  {
    hide Fed, Chunked.Decode, IsChunkedSoFar, ChunkLine.ChunkSize, FailsWith, LoneCrParts;
    var a, b := SampleHead(200) + "z\r", "\n";
    var h := SampleIsChunked(lim, 200, "z\r");
    NoSize(lim);
    LoneCrOutcome(Get, lim, a, b, h, "z\r", [], "z");
    CutExact(Get, lim, a, b);
    TwoPieces(Get, lim, a, b);
  }

  /** Real bytes: a chunked 205 with one forbidden byte, and then not the CRLF that must follow it. */
  lemma PreemptionWitness(lim: ResponseLimits)
    requires lim.maxHead >= 100 && lim.maxChunkLine >= 1 && lim.maxBody >= 1
    ensures var cuts := [SampleHead(205) + "1\r\na", "xx"];
            && FedAll(Get, lim, cuts) == Err(MalformedResponse)
            && Fed(Get, lim, START, Concat(cuts)) == Err(InvalidChunkFraming)
  {
    hide Fed, Chunked.Decode, IsChunkedSoFar;
    var a, b := SampleHead(205) + "1\r\na", "xx";
    OneByteChunk(lim);
    assert "1\r\na" + b == "1\r\naxx";
    var h := SampleIsChunked(lim, 205, "1\r\na");
    ChunkedFeeds(Get, lim, a, h, "1\r\na");
    ChunkedMore(Get, lim, a, h, "1\r\na", b);
    ChunkedFeeds(Get, lim, a + b, h, "1\r\na" + b);
    TwoPieces(Get, lim, a, b);
  }
}
