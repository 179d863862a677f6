/** What the response parser promises over whole byte streams: cuts do not matter, it never looks past
 the message, and its memory is bounded. */
module ParserProofs {
  import opened Results
  import opened Text
  import opened Limits
  import opened Heads
  import opened Parser
  import Chunked
  import ChunkedProofs

  // ---------- One cut ----------

  function More(st: State, bytes: string): State {
    st.(buffer := st.buffer + bytes)
  }

  /** One head block, when the buffer holds one. */
  lemma HeadsUnfold(m: Method, lim: ResponseLimits, st: State, end: nat)
    requires st.stage == AtHead && Find(st.buffer, BLANK_LINE) == end
    ensures var rest := st.(buffer := st.buffer[end + 4..]);
            ReadHeads(m, lim, st) ==
            if end + 4 > lim.maxHead then Err(ResponseLimitExceeded)
            else match HeadOf(st.buffer[..end])
                 case Err(e) => Err(e)
                 case Ok(head) => match Decide(m, lim, head.status, head.headers)
                                  case Reject(e) => Err(e)
                                  case Interim => ReadHeads(m, lim, rest)
                                  case d => Ok(Begin(m, rest, head, d))
  {
    hide Find, HeadOf, Decide, Begin;
  }

  lemma HeadsPending(m: Method, lim: ResponseLimits, st: State, b: string)
    requires st.stage == AtHead && Find(st.buffer, BLANK_LINE) < 0
    ensures if |st.buffer| > lim.maxHead
            then ReadHeads(m, lim, st) == ReadHeads(m, lim, More(st, b)) == Err(ResponseLimitExceeded)
            else ReadHeads(m, lim, st) == Ok(st)
  {
    hide Find, HeadOf, Decide, Begin;
    FindExtend(st.buffer, b, BLANK_LINE);
  }

  lemma BeginMore(m: Method, st: State, head: ParsedHead, d: Decision, b: string)
    ensures Begin(m, More(st, b), head, d) == More(Begin(m, st, head, d), b)
    ensures Begin(m, st, head, d).stage != AtHead
  {
  }

  /** The chunked run a state's body stage is about to make. */
  function BodyRun(lim: ResponseLimits, st: State): Chunked.Run {
    Chunked.Decode(lim, st.decoder, st.buffer, st.response.body)
  }

  predicate StopsAtLoneCr(lim: ResponseLimits, st: State) {
    st.stage == ChunkedBody && ChunkedProofs.LoneCr(lim, BodyRun(lim, st))
  }

  /**
   A chunked 205 whose buffered bytes hold body data, which is forbidden, and decode, as they no longer do with
   the next bytes: fed together, the decoder's error comes first.
   */
  predicate Preempted(lim: ResponseLimits, st: State, b: string) {
    && st.stage == ChunkedBody && st.bodyForbidden
    && !BodyRun(lim, st).status.Failed? && BodyRun(lim, st).body != "" && BodyRun(lim, More(st, b)).status.Failed?
  }

  lemma PastHead(m: Method, lim: ResponseLimits, st: State)
    ensures st.stage != AtHead ==> ReadHeads(m, lim, st) == Ok(st)
    ensures st.stage == AtHead ==> Deliver(lim, st) == Ok(st)
    ensures StopsAtLoneCr(lim, st) ==> st.stage == ChunkedBody
    ensures forall b :: Preempted(lim, st, b) ==> st.stage == ChunkedBody
  {
    hide Find;
  }

  lemma {:induction false} HeadsSplit(m: Method, lim: ResponseLimits, st: State, b: string)
    ensures var one, all := ReadHeads(m, lim, st), ReadHeads(m, lim, More(st, b));
            all == if one.Ok? then ReadHeads(m, lim, More(one.value, b)) else one
    decreases |st.buffer|
  {
    hide ReadHeads, Find, HeadOf, Decide, Begin;
    var a := st.buffer;
    var end := Find(a, BLANK_LINE);
    if st.stage != AtHead {
      PastHead(m, lim, st);
      PastHead(m, lim, More(st, b));
    } else if end < 0 {
      HeadsPending(m, lim, st, b);
    } else {
      FindExtend(a, b, BLANK_LINE);
      CutGlued(a, b, end);
      CutGlued(a, b, end + 4);
      var rest := a[end + 4..];
      HeadsUnfold(m, lim, st, end);
      HeadsUnfold(m, lim, More(st, b), end);
      if HeadOf(a[..end]).Ok? {
        var head := HeadOf(a[..end]).value;
        var d := Decide(m, lim, head.status, head.headers);
        BeginMore(m, st.(buffer := rest), head, d, b);
        PastHead(m, lim, More(Begin(m, st.(buffer := rest), head, d), b));
        HeadsSplit(m, lim, st.(buffer := rest), b);
      }
    }
  }

  /** What the body stage does with `b` appended, told from what it does without. */
  predicate SplitAgrees(lim: ResponseLimits, st: State, b: string) {
    var one, all := Deliver(lim, st), Deliver(lim, More(st, b));
    && (one.Ok? ==> one.value.stage != AtHead && all == Deliver(lim, More(one.value, b)))
    && (one.Err? && !StopsAtLoneCr(lim, st) ==> all.Err? && (all.error == one.error <==> !Preempted(lim, st, b)))
    && (StopsAtLoneCr(lim, st) ==> one.Err?)
  }

  lemma CompleteSplit(lim: ResponseLimits, st: State, b: string)
    requires st.stage == Complete
    ensures SplitAgrees(lim, st, b)
  {
    hide Chunked.Decode;
  }

  lemma LengthReached(lim: ResponseLimits, st: State, b: string)
    requires st.stage == ContentLengthBody && st.remaining <= |st.buffer|
    ensures SplitAgrees(lim, st, b)
  {
    hide Chunked.Decode;
    CutGlued(st.buffer, b, st.remaining);
  }

  lemma LengthReachedLater(lim: ResponseLimits, st: State, b: string)
    requires st.stage == ContentLengthBody && |st.buffer| < st.remaining <= |st.buffer| + |b|
    ensures SplitAgrees(lim, st, b)
  {
    hide Chunked.Decode;
    var a, n := st.buffer, st.remaining;
    CutWhole(a);
    CutWhole(b);
    ChunkedProofs.CutPast(a, b, n);
    Regroup(st.response.body, a, b[..n - |a|]);
  }

  lemma LengthNotReached(lim: ResponseLimits, st: State, b: string)
    requires st.stage == ContentLengthBody && |st.buffer| + |b| < st.remaining
    ensures SplitAgrees(lim, st, b)
  {
    hide Chunked.Decode;
    CutWhole(st.buffer);
    CutWhole(b);
    CutWhole(st.buffer + b);
    Regroup(st.response.body, st.buffer, b);
  }

  lemma LengthSplit(lim: ResponseLimits, st: State, b: string)
    requires st.stage == ContentLengthBody
    ensures SplitAgrees(lim, st, b)
  {
    hide SplitAgrees;
    if st.remaining <= |st.buffer| {
      LengthReached(lim, st, b);
    } else if st.remaining <= |st.buffer| + |b| {
      LengthReachedLater(lim, st, b);
    } else {
      LengthNotReached(lim, st, b);
    }
  }

  lemma CloseSplit(lim: ResponseLimits, st: State, b: string)
    requires st.stage == CloseDelimitedBody
    ensures SplitAgrees(lim, st, b)
  {
    hide Chunked.Decode;
    Regroup(st.response.body, st.buffer, b);
    assert "" + b == b && st.buffer + "" == st.buffer && st.response.body + "" == st.response.body;
  }

  lemma FinishedStays(lim: ResponseLimits, c: Chunked.Control, input: string, body: string)
    ensures c.stage.Finished? ==> Chunked.Decode(lim, c, input, body) == Chunked.Run(Chunked.Complete, c, input, body)
  {
  }

  lemma ChunkedSplit(lim: ResponseLimits, st: State, b: string)
    requires st.stage == ChunkedBody
    ensures SplitAgrees(lim, st, b)
  {
    hide Chunked.Decode;
    var run := BodyRun(lim, st);
    ChunkedProofs.DecodeErrors(lim, st.decoder, st.buffer + b, st.response.body);
    ChunkedProofs.DecodeSplit(lim, st.decoder, st.buffer, b, st.response.body);
    ChunkedProofs.DecodeShape(lim, st.decoder, st.buffer, st.response.body);
    ChunkedProofs.DecodeShape(lim, run.control, run.rest + b, run.body);
    FinishedStays(lim, run.control, run.rest + b, run.body);
  }

  lemma DeliverSplit(lim: ResponseLimits, st: State, b: string)
    requires st.stage != AtHead
    ensures SplitAgrees(lim, st, b)
  {
    hide SplitAgrees;
    match st.stage
    case ContentLengthBody => LengthSplit(lim, st, b);
    case CloseDelimitedBody => CloseSplit(lim, st, b);
    case ChunkedBody => ChunkedSplit(lim, st, b);
    case Complete => CompleteSplit(lim, st, b);
  }

  /** The state in which the bytes so far meet the body stage, if they do. */
  predicate LeavesLoneCr(m: Method, lim: ResponseLimits, st: State) {
    var h := ReadHeads(m, lim, st); h.Ok? && StopsAtLoneCr(lim, h.value)
  }

  predicate PreemptedBy(m: Method, lim: ResponseLimits, st: State, b: string) {
    var h := ReadHeads(m, lim, st); h.Ok? && Preempted(lim, h.value, b)
  }

  /** Feeding `a` and then `b` is feeding `a + b`: every field, and every error code. */
  lemma FeedSplit(m: Method, lim: ResponseLimits, st: State, a: string, b: string)
    ensures var one, all := Fed(m, lim, st, a), Fed(m, lim, st, a + b);
            && (one.Ok? ==> all == Fed(m, lim, one.value, b))
            && (one.Err? && !LeavesLoneCr(m, lim, More(st, a)) ==>
                  all.Err? && (all.error == one.error <==> !PreemptedBy(m, lim, More(st, a), b)))
            && (LeavesLoneCr(m, lim, More(st, a)) ==> one.Err?)
  {
    hide ReadHeads, Deliver;
    Regroup(st.buffer, a, b);
    var start := More(st, a);
    var h := ReadHeads(m, lim, start);
    HeadsSplit(m, lim, start, b);
    if h.Ok? {
      PastHead(m, lim, h.value);
      PastHead(m, lim, More(h.value, b));
      if h.value.stage != AtHead {
        DeliverSplit(lim, h.value, b);
        if Deliver(lim, h.value).Ok? {
          PastHead(m, lim, More(Deliver(lim, h.value).value, b));
        }
      }
    }
  }

  // ---------- Any cutting ----------

  function Concat(cuts: seq<string>): string {
    if cuts == [] then "" else Concat(cuts[..|cuts| - 1]) + cuts[|cuts| - 1]
  }

  /** A fresh parser fed the pieces in turn, until one call fails. */
  function FedAll(m: Method, lim: ResponseLimits, cuts: seq<string>): Result<State> {
    if cuts == [] then Ok(START)
    else var st :- FedAll(m, lim, cuts[..|cuts| - 1]); Fed(m, lim, st, cuts[|cuts| - 1])
  }

  lemma StartTakesNothing(m: Method, lim: ResponseLimits)
    ensures Fed(m, lim, START, "") == Ok(START)
  {
    FindRun("", BLANK_LINE);
    assert Find("", BLANK_LINE) < 0;
  }

  /** Segmentation independence: pieces that all parse leave the parser as one feed of the whole does. */
  lemma {:induction false} Segmentation(m: Method, lim: ResponseLimits, cuts: seq<string>)
    ensures FedAll(m, lim, cuts).Ok? ==> FedAll(m, lim, cuts) == Fed(m, lim, START, Concat(cuts))
  {
    hide Fed;
    if cuts == [] {
      StartTakesNothing(m, lim);
    } else {
      var front, last := cuts[..|cuts| - 1], cuts[|cuts| - 1];
      Segmentation(m, lim, front);
      FeedSplit(m, lim, START, Concat(front), last);
    }
  }

  // ---------- No lookahead ----------

  /** `w` is a complete message, all of it used. */
  predicate IsWhole(m: Method, lim: ResponseLimits, w: string, st: State) {
    Fed(m, lim, START, w) == Ok(st) && st.stage == Complete && st.buffer == ""
  }

  lemma CompleteKeeps(m: Method, lim: ResponseLimits, st: State, r: string)
    requires st.stage == Complete
    ensures Fed(m, lim, st, r) == Ok(More(st, r))
  {
  }

  /** Once complete, what follows stays in the buffer and changes nothing. */
  lemma NoLookahead(m: Method, lim: ResponseLimits, w: string, st: State, r: string)
    requires IsWhole(m, lim, w, st)
    ensures Fed(m, lim, START, w + r) == Ok(st.(buffer := r))
  {
    hide Fed;
    FeedSplit(m, lim, START, w, r);
    CompleteKeeps(m, lim, st, r);
    assert "" + r == r;
  }

  /** Complete messages form a prefix-free set. */
  lemma PrefixFree(m: Method, lim: ResponseLimits, v: string, w: string, sv: State, sw: State)
    requires IsWhole(m, lim, v, sv) && IsWhole(m, lim, w, sw) && v <= w
    ensures v == w && sv == sw
  {
    hide Fed;
    CutOnce(w, |v|);
    assert w == v + w[|v|..];
    NoLookahead(m, lim, v, sv, w[|v|..]);
  }

  // ---------- Memory ----------

  /** Body and announced bytes within the limits; nothing decoded before the final head. */
  predicate Bounded(lim: ResponseLimits, st: State) {
    && |st.response.body| + st.remaining <= lim.maxBody
    && ChunkedProofs.Within(lim, st.decoder, |st.response.body|)
    && (st.stage == AtHead || st.stage == ContentLengthBody || st.stage == CloseDelimitedBody ==>
       st.decoder == Chunked.START)
    && (st.stage == AtHead ==> st.response.body == "" && st.remaining == 0)
    && (st.stage == CloseDelimitedBody || st.stage == ChunkedBody ==> st.remaining == 0)
  }

  /** How much of the buffer a call that needs more may keep. */
  predicate BufferKept(lim: ResponseLimits, st: State) {
    match st.stage
    case AtHead => |st.buffer| <= lim.maxHead
    case ContentLengthBody => st.buffer == "" && st.remaining > 0
    case CloseDelimitedBody => st.buffer == ""
    case ChunkedBody => ChunkedProofs.Retained(lim, st.decoder, st.buffer)
    case Complete => true
  }

  lemma DecideBounds(m: Method, lim: ResponseLimits, status: nat, headers: Headers)
    ensures var d := Decide(m, lim, status, headers); d.Fixed? ==> 0 < d.length <= lim.maxBody
  {
    hide FramingOf, Lengths, Codings, IEquals;
  }

  lemma {:induction false} HeadsBounded(m: Method, lim: ResponseLimits, st: State)
    requires Bounded(lim, st)
    ensures var r := ReadHeads(m, lim, st);
            r.Ok? ==> Bounded(lim, r.value) && (r.value.stage == AtHead ==> |r.value.buffer| <= lim.maxHead)
    decreases |st.buffer|
  {
    hide Find, HeadOf, Decide;
    var end := Find(st.buffer, BLANK_LINE);
    if st.stage == AtHead && end >= 0 && HeadOf(st.buffer[..end]).Ok? {
      var head := HeadOf(st.buffer[..end]).value;
      DecideBounds(m, lim, head.status, head.headers);
      HeadsBounded(m, lim, st.(buffer := st.buffer[end + 4..]));
    }
  }

  lemma BoundedMore(lim: ResponseLimits, st: State, bytes: string)
    ensures Bounded(lim, More(st, bytes)) == Bounded(lim, st)
  {
  }

  lemma HeadKept(lim: ResponseLimits, st: State)
    requires st.stage == AtHead
    ensures BufferKept(lim, st) == (|st.buffer| <= lim.maxHead)
  {
  }

  lemma PlainBounded(lim: ResponseLimits, st: State)
    requires Bounded(lim, st) && st.stage != AtHead && st.stage != ChunkedBody
    ensures var r := Deliver(lim, st); r.Ok? ==> Bounded(lim, r.value) && BufferKept(lim, r.value)
  {
    hide Chunked.Decode, ChunkedProofs.Retained;
  }

  lemma WithinBody(lim: ResponseLimits, c: Chunked.Control, decoded: nat)
    requires ChunkedProofs.Within(lim, c, decoded)
    ensures decoded <= lim.maxBody
  {
  }

  lemma ChunkedBounded(lim: ResponseLimits, st: State)
    requires Bounded(lim, st) && st.stage == ChunkedBody
    ensures var r := Deliver(lim, st); r.Ok? ==> Bounded(lim, r.value) && BufferKept(lim, r.value)
  {
    hide Chunked.Decode, ChunkedProofs.Retained, ChunkedProofs.Within;
    ChunkedProofs.DecodeBounded(lim, st.decoder, st.buffer, st.response.body);
    ChunkedProofs.DecodeShape(lim, st.decoder, st.buffer, st.response.body);
    var run := BodyRun(lim, st);
    WithinBody(lim, run.control, |run.body|);
  }

  lemma DeliverBounded(lim: ResponseLimits, st: State)
    requires Bounded(lim, st) && st.stage != AtHead
    ensures var r := Deliver(lim, st); r.Ok? ==> Bounded(lim, r.value) && BufferKept(lim, r.value)
  {
    if st.stage == ChunkedBody {
      ChunkedBounded(lim, st);
    } else {
      PlainBounded(lim, st);
    }
  }

  lemma FeedBounded(m: Method, lim: ResponseLimits, st: State, bytes: string)
    requires Bounded(lim, st)
    ensures var r := Fed(m, lim, st, bytes); r.Ok? ==> Bounded(lim, r.value) && BufferKept(lim, r.value)
  {
    hide ReadHeads, Deliver, Bounded, BufferKept;
    BoundedMore(lim, st, bytes);
    HeadsBounded(m, lim, More(st, bytes));
    var h := ReadHeads(m, lim, More(st, bytes));
    if h.Ok? && h.value.stage != AtHead {
      DeliverBounded(lim, h.value);
    } else if h.Ok? {
      PastHead(m, lim, h.value);
      HeadKept(lim, h.value);
    }
  }

  /** Every reachable state is within the limits. */
  lemma {:induction false} ReachableBounded(m: Method, lim: ResponseLimits, cuts: seq<string>)
    ensures FedAll(m, lim, cuts).Ok? ==>
            Bounded(lim, FedAll(m, lim, cuts).value) && BufferKept(lim, FedAll(m, lim, cuts).value)
  {
    hide Fed;
    if cuts != [] {
      ReachableBounded(m, lim, cuts[..|cuts| - 1]);
      if FedAll(m, lim, cuts[..|cuts| - 1]).Ok? {
        FeedBounded(m, lim, FedAll(m, lim, cuts[..|cuts| - 1]).value, cuts[|cuts| - 1]);
      }
    }
  }
}
