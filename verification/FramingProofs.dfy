/** The framing rules with every status, name and limit written out (sections 5.6.1, 6.3 and 9.6 of RFC 9112 and 9110),
 and the outcome of any input told by them: the response it holds, or the code it fails with. */
module FramingProofs {
  import opened Results
  import opened Text
  import opened Limits
  import opened Heads
  import opened HeadProofs
  import opened Parser
  import opened ParserProofs
  import opened MessageProofs
  import opened ChunkedProofs
  import opened CutProofs
  import Chunked

  // ---------- Comma lists ----------

  /** The items of a list, as they stand between its commas. */
  predicate AreItems(value: string, items: seq<string>) {
    items != [] && AllLack(items, ',') && value == Join(items, ',')
  }

  /** Some item is `token`, whatever its case and the whitespace around it. */
  ghost predicate Lists(value: string, token: string) {
    exists items: seq<string>, i: nat :: AreItems(value, items) && i < |items| && IEquals(Trimmed(items[i]), token)
  }

  ghost predicate ListsNothing(value: string) {
    exists items: seq<string>, i: nat :: AreItems(value, items) && i < |items| && AllOws(items[i])
  }

  predicate TrimEach(tokens: seq<string>, items: seq<string>) {
    |tokens| == |items| && forall i :: 0 <= i < |items| ==> tokens[i] == Trimmed(items[i])
  }

  lemma {:induction false} TokensTrim(value: string, begin: nat)
    requires begin <= |value|
    ensures TrimEach(TokensFrom(value, begin), SplitFrom(value, begin, ','))
    decreases |value| - begin
  {
    hide Until, Trimmed;
    var end := Until(value, begin, ",");
    assert "," == [','];
    TokensUnfold(value, begin);
    SplitUnfold(value, begin, ',');
    if end == |value| {
      TokensEnd(value, end + 1);
      assert value[begin..end] == value[begin..];
    } else {
      TokensTrim(value, end + 1);
    }
  }

  lemma TokensAreItems(value: string, items: seq<string>)
    requires AreItems(value, items)
    ensures TrimEach(Tokens(value), items)
  {
    hide TrimEach, Join;
    SplitJoin(items, ',');
    TokensTrim(value, 0);
  }

  lemma ItemsOf(value: string) returns (items: seq<string>)
    ensures AreItems(value, items) && TrimEach(Tokens(value), items)
  {
    hide TrimEach, Join, Lacks;
    items := Split(value, ',');
    SplitLacks(value, 0, ',');
    JoinSplit(value, 0, ',');
    assert value[0..] == value;
    TokensAreItems(value, items);
  }

  lemma TrimmedToNothing(s: string)
    ensures Trimmed(s) == "" <==> AllOws(s)
  {
    if AllOws(s) {
      TrimmedUnique(s, "", "");
      assert s + "" + "" == s;
    }
    if Trimmed(s) == "" {
      var w, v := TrimmedParts(s);
      assert s == w + v;
    }
  }

  lemma ListsExact(value: string, token: string)
    ensures HasToken(value, token) <==> Lists(value, token)
  {
    hide IEquals, Trimmed, Tokens, Join, Lacks;
    var mine := ItemsOf(value);
    forall items: seq<string> | AreItems(value, items) ensures TrimEach(Tokens(value), items) {
      TokensAreItems(value, items);
    }
  }

  lemma ListsNothingExact(value: string)
    ensures "" in Tokens(value) <==> ListsNothing(value)
  {
    hide AllOws, Trimmed, Tokens, Join, Lacks;
    var mine := ItemsOf(value);
    forall items: seq<string> | AreItems(value, items) ensures TrimEach(Tokens(value), items) {
      TokensAreItems(value, items);
    }
    forall s: string ensures Trimmed(s) == "" <==> AllOws(s) {
      TrimmedToNothing(s);
    }
    if "" in Tokens(value) {
      var i :| 0 <= i < |mine| && Tokens(value)[i] == "";
      assert AllOws(mine[i]);
    }
  }

  /** Some Connection field lists close. */
  ghost predicate SaysClose(headers: Headers) {
    exists i :: 0 <= i < |headers| && Named(headers[i], "Connection") && Lists(headers[i].value, "close")
  }

  lemma ClosesExact(headers: Headers)
    ensures Closes(headers) <==> SaysClose(headers)
  {
    hide Named, HasToken, Lists;
    forall i | 0 <= i < |headers| ensures HasToken(headers[i].value, "close") <==> Lists(headers[i].value, "close") {
      ListsExact(headers[i].value, "close");
    }
  }

  // ---------- What the framing fields say ----------

  /** The only field of that name is field `i`. */
  predicate OnlyAt(headers: Headers, name: string, i: nat) {
    && i < |headers| && Named(headers[i], name)
    && forall j :: 0 <= j < |headers| && j != i ==> !Named(headers[j], name)
  }

  /** A framing field that cannot be read: a length that is no number, or a coding list with a blank item. */
  ghost predicate IsBadField(f: Field, e: ErrorCode) {
    || (Named(f, "Content-Length") && Number(f.value, 10).None? && e == InvalidContentLength)
    || (Named(f, "Transfer-Encoding") && ListsNothing(f.value) && e == MalformedResponse)
  }

  ghost predicate IsGoodField(f: Field) { forall e :: !IsBadField(f, e) }

  ghost predicate IsReadable(headers: Headers) {
    && (forall i :: 0 <= i < |headers| ==> IsGoodField(headers[i]))
    && (forall i, j :: 0 <= i < j < |headers| ==>
       !Named(headers[i], "Content-Length") || !Named(headers[j], "Content-Length"))
  }

  /** The framing fields can be read, and there is one way of framing at most. */
  ghost predicate IsFramed(headers: Headers) {
    IsReadable(headers) && !(Has(headers, "Content-Length") && Has(headers, "Transfer-Encoding"))
  }

  ghost predicate IsUnframed(headers: Headers) { !Has(headers, "Content-Length") && !Has(headers, "Transfer-Encoding") }

  /** Content-Length: n, and nothing else about framing. */
  ghost predicate HasLength(headers: Headers, n: nat) {
    && !Has(headers, "Transfer-Encoding")
    && exists i: nat :: OnlyAt(headers, "Content-Length", i) && Number(headers[i].value, 10) == Some(n)
  }

  /** Transfer-Encoding: chunked, and nothing else about framing. */
  ghost predicate IsChunked(headers: Headers) {
    && !Has(headers, "Content-Length")
    && exists i: nat :: OnlyAt(headers, "Transfer-Encoding", i) && IEquals(Trimmed(headers[i].value), "chunked")
  }

  lemma FieldErrorIs(f: Field)
    ensures FieldError(f).None? <==> IsGoodField(f)
    ensures forall e :: FieldError(f) == Some(e) <==> IsBadField(f, e)
  {
    hide Number, Tokens, ListsNothing, IEquals;
    ListsNothingExact(f.value);
    if Named(f, "Content-Length") {
      OneName(f);
    }
    assert FieldError(f).Some? ==> IsBadField(f, FieldError(f).value);
  }

  lemma ReadableIs(headers: Headers)
    ensures WellFramed(headers) <==> IsReadable(headers)
  {
    hide Named, FieldError, IsGoodField;
    forall i | 0 <= i < |headers| ensures FieldError(headers[i]).None? <==> IsGoodField(headers[i]) {
      FieldErrorIs(headers[i]);
    }
  }

  lemma HasLengthIs(headers: Headers, n: nat)
    requires IsReadable(headers)
    ensures HasLength(headers, n) <==> SaysLength(headers, n) && !Has(headers, "Transfer-Encoding")
  {
    hide Named, Number, IsGoodField;
    if SaysLength(headers, n) {
      var i :| 0 <= i < |headers| && Named(headers[i], "Content-Length");
      assert OnlyAt(headers, "Content-Length", i) && Number(headers[i].value, 10) == Some(n);
    }
  }

  lemma ChunkedLacksComma(w: string, name: string, v: string)
    requires AllOws(w) && AllOws(v) && IEquals(name, "chunked")
    ensures Lacks(w + name + v, ',')
  {
    assert forall i :: 0 <= i < |name| ==> Lower(name[i]) == "chunked"[i];
  }

  lemma ChunkedIsOneToken(value: string)
    ensures Tokens(value) != []
    ensures IEquals(Trimmed(value), "chunked") <==> |Tokens(value)| == 1 && IEquals(Tokens(value)[0], "chunked")
  {
    hide Trimmed, Tokens, IEquals;
    var items := ItemsOf(value);
    JoinFew(items, ',');
    if IEquals(Trimmed(value), "chunked") {
      var w, v := TrimmedParts(value);
      ChunkedLacksComma(w, Trimmed(value), v);
      assert AllLack([value], ',');
      JoinFew([value], ',');
      TokensAreItems(value, [value]);
    }
  }

  predicate OnlyBefore(headers: Headers, n: nat, name: string, i: nat)
    requires n <= |headers|
  {
    i < n && Named(headers[i], name) && forall j: nat :: j < n && j != i ==> !Named(headers[j], name)
  }

  lemma {:induction false} NoCodings(headers: Headers, n: nat)
    requires n <= |headers| && forall i :: 0 <= i < n ==> !Named(headers[i], "Transfer-Encoding")
    ensures CodingsUpTo(headers, n) == []
  {
    hide Named, Tokens;
    if n > 0 {
      NoCodings(headers, n - 1);
    }
  }

  /** The codings are those of a field that is the only one of its name. */
  lemma {:induction false} CodingsOfOne(headers: Headers, n: nat, i: nat)
    requires n <= |headers| && OnlyBefore(headers, n, "Transfer-Encoding", i)
    ensures CodingsUpTo(headers, n) == Tokens(headers[i].value)
  {
    hide Named, Tokens;
    if i < n - 1 {
      CodingsOfOne(headers, n - 1, i);
    } else {
      NoCodings(headers, n - 1);
    }
  }

  /** A single coding comes from the only field of its name. */
  lemma {:induction false} OneCoding(headers: Headers, n: nat) returns (i: nat)
    requires n <= |headers| && |CodingsUpTo(headers, n)| == 1
    ensures OnlyBefore(headers, n, "Transfer-Encoding", i)
  {
    hide Named, Tokens;
    if Named(headers[n - 1], "Transfer-Encoding") {
      ChunkedIsOneToken(headers[n - 1].value);
      CodingsPresent(headers, n - 1);
      i := n - 1;
    } else {
      i := OneCoding(headers, n - 1);
    }
  }

  lemma ChunkedIs(headers: Headers)
    ensures IsChunked(headers) <==>
            !Has(headers, "Content-Length") && |Codings(headers)| == 1 && IEquals(Codings(headers)[0], "chunked")
  {
    hide Named, IEquals, Trimmed, CodingsUpTo;
    forall i | 0 <= i < |headers|
      ensures IEquals(Trimmed(headers[i].value), "chunked") <==>
              |Tokens(headers[i].value)| == 1 && IEquals(Tokens(headers[i].value)[0], "chunked")
    {
      ChunkedIsOneToken(headers[i].value);
    }
    if |Codings(headers)| == 1 && IEquals(Codings(headers)[0], "chunked") {
      var i := OneCoding(headers, |headers|);
      CodingsOfOne(headers, |headers|, i);
      assert OnlyAt(headers, "Transfer-Encoding", i);
    }
    if i: nat :| OnlyAt(headers, "Transfer-Encoding", i) && IEquals(Trimmed(headers[i].value), "chunked") {
      CodingsOfOne(headers, |headers|, i);
    }
  }

  // ---------- What status and fields call for ----------

  /** The body that a final response of this status and these fields must have, and its bytes. */
  ghost predicate IsBody(m: Method, lim: ResponseLimits, status: nat, headers: Headers, payload: string, body: string) {
    && (status < 100 || status >= 200 || status == 101) && IsFramed(headers)
    && if status == 101 || status == 204 then IsUnframed(headers) && payload == "" && body == ""
       else if m == Head || status == 304 then payload == "" && body == ""
       else
         || (|payload| <= lim.maxBody && HasLength(headers, |payload|) && body == payload &&
            (status == 205 ==> body == ""))
         || (IsChunked(headers) && IsCodingOf(lim, payload, body) && (status == 205 ==> body == ""))
  }

  /** A response that is passed over, the final one still to come. */
  ghost predicate IsPassedOver(status: nat, headers: Headers) {
    100 <= status < 200 && status != 101 && IsReadable(headers) && IsUnframed(headers)
  }

  /** A response whose body is all that comes before the end of the stream. */
  ghost predicate RunsToTheEnd(m: Method, status: nat, headers: Headers) {
    && m != Head && status != 204 && status != 304 && (status < 100 || status >= 200)
    && IsReadable(headers) && IsUnframed(headers)
  }

  /** The first field that cannot be read is bad with `e`. */
  ghost predicate FirstBad(headers: Headers, e: ErrorCode) {
    exists i :: 0 <= i < |headers| && IsBadField(headers[i], e) && forall j :: 0 <= j < i ==> IsGoodField(headers[j])
  }

  /** Why a response of this status and these fields is refused before any byte of its body. */
  ghost predicate IsRefused(m: Method, lim: ResponseLimits, status: nat, headers: Headers, e: ErrorCode) {
    var byLength, byCoding := Has(headers, "Content-Length"), Has(headers, "Transfer-Encoding");
    if exists i :: 0 <= i < |headers| && !IsGoodField(headers[i]) then FirstBad(headers, e)
    else if !IsReadable(headers) then e == InvalidContentLength
    else if 100 <= status < 200 && status != 101 then (byLength || byCoding) && e == MalformedResponse
    else if byLength && byCoding then e == ConflictingMessageFraming
    else if status == 101 || status == 204 then (byLength || byCoding) && e == MalformedResponse
    else if m == Head || status == 304 then false
    else if byCoding then !IsChunked(headers) && e == MalformedResponse
    else
      exists n: nat :: && HasLength(headers, n)
                       && if status == 205 && n > 0 then e == InvalidContentLength
                          else n > lim.maxBody && e == ResponseLimitExceeded
  }

  lemma {:induction false} FirstErrorIs(headers: Headers, n: nat)
    requires n <= |headers|
    ensures forall e ::
              FirstError(headers, n) == Some(e) <==>
              exists i :: n <= i < |headers| && FieldError(headers[i]) == Some(e) &&
                          forall j :: n <= j < i ==> FieldError(headers[j]).None?
    decreases |headers| - n
  {
    hide FieldError;
    if n < |headers| {
      FirstErrorIs(headers, n + 1);
      var rest := FirstError(headers, n + 1);
      if FieldError(headers[n]).None? && rest.Some? {
        var i :| n + 1 <= i < |headers| && FieldError(headers[i]) == Some(rest.value) &&
          forall j :: n + 1 <= j < i ==> FieldError(headers[j]).None?;
        assert n <= i < |headers| && forall j :: n <= j < i ==> FieldError(headers[j]).None?;
      }
    }
  }

  lemma FirstBadIs(headers: Headers)
    ensures forall e :: FirstError(headers, 0) == Some(e) <==> FirstBad(headers, e)
    ensures FirstError(headers, 0).None? <==> forall i :: 0 <= i < |headers| ==> IsGoodField(headers[i])
  {
    hide FieldError, IsBadField, IsGoodField;
    FirstErrorIs(headers, 0);
    FirstErrorExact(headers, 0);
    forall i | 0 <= i < |headers|
      ensures FieldError(headers[i]).None? <==> IsGoodField(headers[i])
      ensures forall e :: FieldError(headers[i]) == Some(e) <==> IsBadField(headers[i], e)
    {
      FieldErrorIs(headers[i]);
    }
  }

  lemma CodingsPresence(headers: Headers)
    ensures Codings(headers) == [] <==> !Has(headers, "Transfer-Encoding")
    ensures Lengths(headers) == [] <==> !Has(headers, "Content-Length")
  {
    hide Named, CodingsUpTo, ValuesUpTo;
    CodingsPresent(headers, |headers|);
    ValuesCounted(headers, |headers|, "Content-Length");
  }

  lemma OneLength(headers: Headers, n: nat, k: nat)
    requires HasLength(headers, n) && HasLength(headers, k)
    ensures n == k
  {
    hide Named, Number;
  }

  /** The length field of a readable list says something. */
  lemma LengthOf(headers: Headers) returns (n: nat)
    requires IsReadable(headers) && Has(headers, "Content-Length") && !Has(headers, "Transfer-Encoding")
    ensures HasLength(headers, n) && Lengths(headers) != [] && Number(Lengths(headers)[0], 10).GetOr(0) == n
  {
    hide Named, Number, IsGoodField, FramingOf, ValuesUpTo, WellFramed, IsReadable;
    ReadableIs(headers);
    FramingExact(headers);
    CodingsPresence(headers);
    n := Number(Lengths(headers)[0], 10).GetOr(0);
    LengthSays(headers, n);
    HasLengthIs(headers, n);
  }

  lemma LengthIsThere(headers: Headers, n: nat)
    requires HasLength(headers, n)
    ensures Has(headers, "Content-Length") && !Has(headers, "Transfer-Encoding")
  {
    hide Named, Number;
  }

  lemma FramingFails(headers: Headers, e: ErrorCode)
    ensures FramingOf(headers) == Err(e) <==>
            if exists i :: 0 <= i < |headers| && !IsGoodField(headers[i]) then FirstBad(headers, e)
            else !IsReadable(headers) && e == InvalidContentLength
  {
    hide Named, FirstError, IsGoodField, FirstBad, ValuesUpTo, CodingsUpTo, WellFramed, IsReadable;
    FirstBadIs(headers);
    ReadableIs(headers);
    FramingExact(headers);
  }

  lemma RefusedReadable(m: Method, lim: ResponseLimits, status: nat, headers: Headers, e: ErrorCode)
    requires IsReadable(headers)
    ensures Decide(m, lim, status, headers) == Reject(e) <==> IsRefused(m, lim, status, headers, e)
  {
    hide Named, FramingOf, IsGoodField, FirstBad, ValuesUpTo, CodingsUpTo, Number, IEquals, WellFramed, Has, HasLength,
         IsChunked;
    ReadableIs(headers);
    FramingExact(headers);
    CodingsPresence(headers);
    ChunkedIs(headers);
    if Has(headers, "Content-Length") && !Has(headers, "Transfer-Encoding") {
      var n := LengthOf(headers);
      forall k | HasLength(headers, k) ensures k == n {
        OneLength(headers, n, k);
      }
    } else {
      forall k: nat | HasLength(headers, k) ensures false {
        LengthIsThere(headers, k);
      }
    }
  }

  /** The decision, with everything written out. */
  lemma RefusedExact(m: Method, lim: ResponseLimits, status: nat, headers: Headers, e: ErrorCode)
    ensures Decide(m, lim, status, headers) == Reject(e) <==> IsRefused(m, lim, status, headers, e)
  {
    hide FramingOf, IsGoodField, FirstBad, Lengths, Codings, Number, IEquals, WellFramed, Has, HasLength, IsChunked,
         IsReadable;
    ReadableIs(headers);
    FramingExact(headers);
    if IsReadable(headers) {
      RefusedReadable(m, lim, status, headers, e);
    } else {
      FramingFails(headers, e);
    }
  }

  lemma PassedOverExact(m: Method, lim: ResponseLimits, status: nat, headers: Headers)
    ensures Decide(m, lim, status, headers).Interim? <==> IsPassedOver(status, headers)
  {
    hide FramingOf, WellFramed, Has, IsReadable, ValuesUpTo, CodingsUpTo, IEquals, Number;
    ReadableIs(headers);
    FramingExact(headers);
    CodingsPresence(headers);
  }

  lemma ToTheEndExact(m: Method, lim: ResponseLimits, status: nat, headers: Headers)
    ensures Decide(m, lim, status, headers).UntilClose? <==> RunsToTheEnd(m, status, headers)
  {
    hide FramingOf, WellFramed, Has, IsReadable, ValuesUpTo, CodingsUpTo, IEquals, Number;
    ReadableIs(headers);
    FramingExact(headers);
    CodingsPresence(headers);
  }

  lemma DecisionByLength(m: Method, lim: ResponseLimits, status: nat, headers: Headers, n: nat)
    requires IsReadable(headers) && HasLength(headers, n)
    requires m != Head && status != 204 && status != 304 && (status < 100 || status >= 200)
    ensures var d := Decide(m, lim, status, headers);
            if n == 0 then d == NoBody
            else if n > lim.maxBody || status == 205 then d.Reject?
            else d == Fixed(n)
  {
    hide Named, FramingOf, WellFramed, Has, IsReadable, ValuesUpTo, CodingsUpTo, IEquals, Number, HasLength, IsChunked;
    ReadableIs(headers);
    FramingExact(headers);
    CodingsPresence(headers);
    LengthIsThere(headers, n);
    var k := LengthOf(headers);
    OneLength(headers, n, k);
  }

  lemma BodyExact(m: Method, lim: ResponseLimits, status: nat, headers: Headers, payload: string, body: string)
    ensures Carries(lim, Decide(m, lim, status, headers), status, payload, body) <==>
            IsBody(m, lim, status, headers, payload, body)
  {
    hide FramingOf, WellFramed, Has, IsReadable, ValuesUpTo, CodingsUpTo, IEquals, Number, HasLength, IsChunked,
         IsCodingOf;
    ReadableIs(headers);
    FramingExact(headers);
    CodingsPresence(headers);
    ChunkedIs(headers);
    if HasLength(headers, |payload|) {
      LengthIsThere(headers, |payload|);
    }
    if m != Head && status != 204 && status != 304 && (status < 100 || status >= 200) && IsReadable(headers) &&
      Has(headers, "Content-Length") && !Has(headers, "Transfer-Encoding") {
      var n := LengthOf(headers);
      DecisionByLength(m, lim, status, headers, n);
      if HasLength(headers, |payload|) {
        OneLength(headers, n, |payload|);
      }
    }
  }

  // ---------- The responses ----------

  ghost predicate IsPassedHead(lim: ResponseLimits, lines: seq<string>) {
    exists h :: IsHeadWithin(lim, lines, h) && IsPassedOver(h.status, h.headers)
  }

  ghost predicate ArePassed(lim: ResponseLimits, interims: seq<seq<string>>) {
    forall i :: 0 <= i < |interims| ==> IsPassedHead(lim, interims[i])
  }

  /** `text` is interim heads, a final head and the body it calls for, meaning `r`. */
  ghost predicate IsResponse(m: Method, lim: ResponseLimits, text: string, r: Response) {
    exists msg: Message ::
      && text == MessageThen(msg, "")
      && ArePassed(lim, msg.interims) && IsHeadWithin(lim, msg.head, HeadOfResponse(r))
      && IsBody(m, lim, r.status, r.headers, msg.payload, r.body)
  }

  /** `text` is interim heads, a final head, and a body that ends with the stream, meaning `r`. */
  ghost predicate IsResponseToTheEnd(m: Method, lim: ResponseLimits, text: string, r: Response) {
    exists msg: Message ::
      && text == MessageThen(msg, "") && r.body == msg.payload
      && ArePassed(lim, msg.interims) && IsHeadWithin(lim, msg.head, HeadOfResponse(r))
      && RunsToTheEnd(m, r.status, r.headers) && |r.body| <= lim.maxBody && (r.status == 205 ==> r.body == "")
  }

  lemma PassedIs(m: Method, lim: ResponseLimits, interims: seq<seq<string>>)
    ensures AreInterims(m, lim, interims) <==> ArePassed(lim, interims)
  {
    hide IsHeadWithin, Decide, IsPassedOver;
    forall h: ParsedHead ensures Decide(m, lim, h.status, h.headers).Interim? <==> IsPassedOver(h.status, h.headers) {
      PassedOverExact(m, lim, h.status, h.headers);
    }
    forall i | 0 <= i < |interims| ensures IsInterimHead(m, lim, interims[i]) <==> IsPassedHead(lim, interims[i]) {
    }
  }

  lemma MessageGlue(msg: Message, rest: string)
    ensures MessageThen(msg, rest) == MessageThen(msg, "") + rest
  {
    hide LinesThen;
    assert msg.payload + "" == msg.payload;
    Regroup(CRLF, msg.payload, rest);
    LinesThenGlue(msg.head, CRLF + msg.payload, rest);
    InterimsThenGlue(msg.interims, LinesThen(msg.head, CRLF + msg.payload), rest);
  }

  lemma MessageIs(m: Method, lim: ResponseLimits, msg: Message, r: Response)
    ensures IsMessage(m, lim, msg, r) <==>
            && ArePassed(lim, msg.interims) && IsHeadWithin(lim, msg.head, HeadOfResponse(r))
            && IsBody(m, lim, r.status, r.headers, msg.payload, r.body)
    ensures IsCloseDelimited(m, lim, msg, r) <==>
            && ArePassed(lim, msg.interims) && IsHeadWithin(lim, msg.head, HeadOfResponse(r)) && r.body == msg.payload
            && RunsToTheEnd(m, r.status, r.headers) && |r.body| <= lim.maxBody && (r.status == 205 ==> r.body == "")
  {
    hide IsHeadWithin, Decide, AreInterims, ArePassed, Carries, IsBody, RunsToTheEnd;
    PassedIs(m, lim, msg.interims);
    BodyExact(m, lim, r.status, r.headers, msg.payload, r.body);
    ToTheEndExact(m, lim, r.status, r.headers);
  }

  /** The parser completes exactly on a response followed by anything, delivers what it means, and leaves what follows.
   */
  lemma ResponseExact(m: Method, lim: ResponseLimits, s: string, r: Response, rest: string)
    ensures (var e := Fed(m, lim, START, s);
             e.Ok? && e.value.stage == Complete && e.value.response == r && e.value.buffer == rest)
            <==> exists text: string :: IsResponse(m, lim, text, r) && s == text + rest
  {
    hide Fed, IsMessage, MessageThen, ArePassed, IsHeadWithin, IsBody;
    ParserExact(m, lim, s, r, rest);
    forall msg: Message
      ensures MessageThen(msg, rest) == MessageThen(msg, "") + rest
      ensures IsMessage(m, lim, msg, r) <==>
              && ArePassed(lim, msg.interims) && IsHeadWithin(lim, msg.head, HeadOfResponse(r))
              && IsBody(m, lim, r.status, r.headers, msg.payload, r.body)
    {
      MessageGlue(msg, rest);
      MessageIs(m, lim, msg, r);
    }
    if msg: Message :| IsMessage(m, lim, msg, r) && s == MessageThen(msg, rest) {
      assert IsResponse(m, lim, MessageThen(msg, ""), r);
    }
  }

  /** End of stream completes exactly the responses whose body is told by nothing else. */
  lemma EndExact(m: Method, lim: ResponseLimits, s: string, r: Response)
    ensures (var e := Fed(m, lim, START, s);
             e.Ok? && e.value.stage != Complete && Ended(lim, e.value).Ok? && Ended(lim, e.value).value.response == r)
            <==> IsResponseToTheEnd(m, lim, s, r)
  {
    hide Fed, Ended, IsCloseDelimited, MessageThen, ArePassed, IsHeadWithin, RunsToTheEnd;
    EofExact(m, lim, s, r);
    forall msg: Message
      ensures IsCloseDelimited(m, lim, msg, r) <==>
              && ArePassed(lim, msg.interims) && IsHeadWithin(lim, msg.head, HeadOfResponse(r)) && r.body == msg.payload
              && RunsToTheEnd(m, r.status, r.headers) && |r.body| <= lim.maxBody && (r.status == 205 ==> r.body == "")
    {
      MessageIs(m, lim, msg, r);
    }
  }

  // ---------- What may be kept, and what a broken stream is worth ----------

  lemma DeliverKeepsFlags(lim: ResponseLimits, t: State)
    ensures Deliver(lim, t).Ok? ==>
              Deliver(lim, t).value.closeRequested == t.closeRequested &&
              Deliver(lim, t).value.closeDelimited == t.closeDelimited &&
              HeadOfResponse(Deliver(lim, t).value.response) == HeadOfResponse(t.response)
  {
    hide Chunked.Decode;
  }

  lemma BeginFlags(m: Method, st: State, h: ParsedHead, d: Decision)
    ensures Begin(m, st, h, d).closeRequested == (Closes(h.headers) || h.status == 101)
    ensures Begin(m, st, h, d).closeDelimited == (st.closeDelimited || d.UntilClose?)
  {
    hide Closes;
  }

  lemma FlagsOf(m: Method, lim: ResponseLimits, s: string)
    requires Fed(m, lim, START, s).Ok? && Fed(m, lim, START, s).value.stage == Complete
    ensures var e := Fed(m, lim, START, s).value;
            !e.closeDelimited && e.closeRequested == (SaysClose(e.response.headers) || e.response.status == 101)
  {
    hide ReadHeads, Deliver, Decide, Begin, Closes, SaysClose;
    FedFromStart(m, lim, s);
    var start := START.(buffer := s);
    var t := ReadHeads(m, lim, start).value;
    PastHead(m, lim, t);
    var interims, lines := HeadsSound(m, lim, start);
    DeliverKeepsFlags(lim, t);
    UntilCloseDelivers(m, lim, t);
    BeginFlags(m, start.(buffer := t.buffer), HeadOfResponse(t.response), DecisionFor(m, lim, t.response));
    ClosesExact(t.response.headers);
  }

  /** After exactly `s` the parser says that the connection may go on exactly if nothing in the response forbids it. */
  lemma ReusableExact(m: Method, lim: ResponseLimits, s: string, r: Response)
    ensures (var e := Fed(m, lim, START, s);
             e.Ok? && IsReusable(e.value) && e.value.buffer == "" && e.value.response == r)
            <==> IsResponse(m, lim, s, r) && r.status != 101 && !SaysClose(r.headers)
  {
    hide Fed, IsResponse, SaysClose;
    ResponseExact(m, lim, s, r, "");
    assert s + "" == s;
    forall text: string ensures text + "" == text {
    }
    var e := Fed(m, lim, START, s);
    if e.Ok? && e.value.stage == Complete {
      FlagsOf(m, lim, s);
    }
  }

  lemma StartIsBounded(lim: ResponseLimits)
    ensures Bounded(lim, START)
  {
  }

  /** End of stream fails with one code, exactly where there is no response and none that runs to the end. */
  lemma EndFails(m: Method, lim: ResponseLimits, s: string, x: ErrorCode)
    requires Fed(m, lim, START, s).Ok? && Fed(m, lim, START, s).value.stage != Complete
    ensures Ended(lim, Fed(m, lim, START, s).value) == Err(x) <==>
            x == UnexpectedEof && forall r: Response :: !IsResponseToTheEnd(m, lim, s, r)
  {
    hide Fed, IsResponseToTheEnd, Deliver, Bounded;
    var st := Fed(m, lim, START, s).value;
    StartIsBounded(lim);
    FeedBounded(m, lim, START, s);
    EofOnDelivered(lim, st);
    forall r: Response
      ensures IsResponseToTheEnd(m, lim, s, r) <==> Ended(lim, st).Ok? && Ended(lim, st).value.response == r
    {
      EndExact(m, lim, s, r);
    }
    assert Ended(lim, st).Ok? ==> IsResponseToTheEnd(m, lim, s, Ended(lim, st).value.response);
    if Ended(lim, st).Ok? {
      assert !(forall r: Response :: !IsResponseToTheEnd(m, lim, s, r));
    } else {
      assert st.stage == CloseDelimitedBody ==> st.buffer == "";
    }
  }
}
