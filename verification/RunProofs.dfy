/** What a run of the client does, with every status, field name and error code written out: what each redirect makes
 of the request, when a connection is kept and used again, and what the run returns. */
module RunProofs {
  import opened Results
  import opened Text
  import opened Limits
  import opened Heads
  import opened Urls
  import opened Redirects
  import opened Serializer
  import opened Sockets
  import opened Clients
  import opened ClientProofs
  import opened FramingProofs
  import opened FailureProofs
  import Parser
  import ParserProofs
  import RedirectProofs

  // ---------- One exchange ----------

  /** `w` begins with a response that means `r`. */
  ghost predicate HoldsResponse(m: Method, lim: ResponseLimits, w: string, r: Parser.Response) {
    exists text: string, rest: string :: IsResponse(m, lim, text, r) && w == text + rest
  }

  /** The answers of an exchange that read `w` are what `w` holds, or what it is when the stream ends. */
  lemma AnswersExact(m: Method, lim: ResponseLimits, w: string, r: Parser.Response)
    ensures Answers(m, lim, w, r) <==> HoldsResponse(m, lim, w, r) || IsResponseToTheEnd(m, lim, w, r)
  {
    hide Parser.Fed, Parser.Ended, IsResponse, IsResponseToTheEnd;
    EndExact(m, lim, w, r);
    var e := Parser.Fed(m, lim, Parser.START, w);
    if e.Ok? {
      ResponseExact(m, lim, w, r, e.value.buffer);
    }
    if text: string, rest: string :| IsResponse(m, lim, text, r) && w == text + rest {
      ResponseExact(m, lim, w, r, rest);
    }
  }

  /** The stream may end here and there is nothing to return: no response, and none that runs to the end. */
  ghost predicate IsCutShort(m: Method, lim: ResponseLimits, w: string) {
    && (forall e :: !IsBadResponse(m, lim, w, e))
    && (forall r: Parser.Response :: !HoldsResponse(m, lim, w, r) && !IsResponseToTheEnd(m, lim, w, r))
  }

  lemma EndIsAnswerOrCut(m: Method, lim: ResponseLimits, w: string)
    requires Parser.Fed(m, lim, Parser.START, w).Ok?
    ensures var st := Parser.Fed(m, lim, Parser.START, w).value;
            && (st.stage == Parser.Complete ==>
                  Parser.Ended(lim, st) == Ok(st) && Answers(m, lim, w, st.response))
            && (Parser.Ended(lim, st).Ok? <==> exists r: Parser.Response :: Answers(m, lim, w, r))
  {
    hide Parser.Fed;
    var st := Parser.Fed(m, lim, Parser.START, w).value;
    if Parser.Ended(lim, st).Ok? {
      assert Answers(m, lim, w, Parser.Ended(lim, st).value.response);
    }
  }

  /** The errors of an exchange that read `w`: the network's, the code `w` is bad with, or the end of the stream. */
  lemma ExplainsExact(m: Method, lim: ResponseLimits, w: string, e: ErrorCode)
    ensures Explains(m, lim, w, e) <==>
            || e in {ResolveFailed, SocketCreateFailed, ConnectFailed, ConnectTimeout, WriteFailed, WriteTimeout,
                     ReadFailed, ReadTimeout, ConnectionClosed}
            || IsBadResponse(m, lim, w, e)
            || (e == UnexpectedEof && IsCutShort(m, lim, w))
  {
    hide Parser.Fed, Parser.Ended, Answers, HoldsResponse, IsResponseToTheEnd, IsBadResponse;
    var fed := Parser.Fed(m, lim, Parser.START, w);
    forall x ensures fed == Err(x) <==> IsBadResponse(m, lim, w, x) {
      FailureExact(m, lim, w, x);
    }
    forall r: Parser.Response
      ensures Answers(m, lim, w, r) <==> HoldsResponse(m, lim, w, r) || IsResponseToTheEnd(m, lim, w, r)
    {
      AnswersExact(m, lim, w, r);
    }
    if fed.Ok? {
      EndIsAnswerOrCut(m, lim, w);
      if fed.value.stage != Parser.Complete {
        EndFails(m, lim, w, e);
      }
    }
  }

  lemma RetainsExact(m: Method, lim: ResponseLimits, w: string, headers: Headers)
    ensures Retains(m, lim, w, headers) <==>
            && !SaysClose(headers)
            && exists r: Parser.Response :: IsResponse(m, lim, w, r) && r.status != 101 && !SaysClose(r.headers)
  {
    hide Parser.Fed, IsResponse, SaysClose, Parser.Closes;
    ClosesExact(headers);
    forall r: Parser.Response
      ensures (var e := Parser.Fed(m, lim, Parser.START, w);
               e.Ok? && Parser.IsReusable(e.value) && e.value.buffer == "" && e.value.response == r)
              <==> IsResponse(m, lim, w, r) && r.status != 101 && !SaysClose(r.headers)
    {
      ReusableExact(m, lim, w, r);
    }
    if Retains(m, lim, w, headers) {
      var r := Parser.Fed(m, lim, Parser.START, w).value.response;
      assert IsResponse(m, lim, w, r);
    }
  }

  lemma OneResponse(m: Method, lim: ResponseLimits, w: string, r: Parser.Response, x: Parser.Response)
    requires IsResponse(m, lim, w, r) && Answers(m, lim, w, x)
    ensures r == x
  {
    hide Parser.Fed, IsResponse, Parser.Ended;
    assert w + "" == w;
    ResponseExact(m, lim, w, r, "");
  }

  /**
   When a connection is kept: exactly if what was read is one whole response that ends itself, nothing follows it, it
   is the one returned, it is no 101, and neither it nor the request has a Connection field that lists close.
   */
  lemma KeptExact(lim: ResponseLimits, before: World, hop: Hop, after: World)
    requires before.Sound() && Steps(lim, before, hop, after) && Serialized(hop.request).Ok?
    ensures after.kept.Some? <==>
            && hop.outcome.Ok? && IsResponse(hop.request.verb, lim, hop.bytes, hop.outcome.value)
            && hop.outcome.value.status != 101
            && !SaysClose(hop.outcome.value.headers) && !SaysClose(hop.request.headers)
  {
    hide World.Sound, Serialized, Answers, Explains, Retains, ExchangeOf, IEquals, Acquired, Settled, Outcome,
         IsResponse,
         SaysClose, Wire.Bytes;
    var m := hop.request.verb;
    RetainsExact(m, lim, hop.bytes, hop.request.headers);
    if hop.outcome.Ok? {
      forall r: Parser.Response | IsResponse(m, lim, hop.bytes, r) ensures r == hop.outcome.value {
        OneResponse(m, lim, hop.bytes, r, hop.outcome.value);
      }
    }
  }

  /**
   When a connection is used again: exactly if one is kept for the same port and, whatever the case, the same host.
   Otherwise one is opened, or none is had and the error is the network's.
   */
  lemma ReuseExact(lim: ResponseLimits, before: World, hop: Hop, after: World)
    requires before.Sound() && Steps(lim, before, hop, after) && Serialized(hop.request).Ok?
    ensures var p, more := Serialized(hop.request).value.parts, after.books.next - before.books.next;
            if before.kept.Some? && before.kept.value.port == p.port && IEquals(before.kept.value.host, p.host)
            then more == 0 && (after.kept.Some? ==> after.Token() == before.Token())
            else if more == 0 then hop.outcome.Err? && IsTransport(hop.outcome.error) && after.kept.None?
            else more == 1 && (after.kept.Some? ==> after.Token() == before.books.next)
  {
    hide Serialized, Answers, Explains, Retains, ExchangeOf, IEquals, Wire.Bytes, Book.InSync, Book.IsPeer;
  }

  // ---------- One redirect ----------

  const REDIRECTS: set<nat> := {301, 302, 303, 307, 308}

  /** The first Location field of a response has this value, and it is not empty. */
  predicate PointsTo(headers: Headers, location: string) {
    && location != ""
    && exists k :: && 0 <= k < |headers| && Named(headers[k], "Location") && headers[k].value == location
                   && forall j :: 0 <= j < k ==> !Named(headers[j], "Location")
  }

  lemma {:induction false} LookupIs(headers: Headers, n: nat, name: string)
    requires n <= |headers|
    ensures match Lookup(headers, n, name)
            case None => forall j :: n <= j < |headers| ==> !Named(headers[j], name)
            case Some(value) =>
              exists k :: && n <= k < |headers| && Named(headers[k], name) && headers[k].value == value
                          && forall j :: n <= j < k ==> !Named(headers[j], name)
    decreases |headers| - n
  {
    hide Named;
    if n < |headers| {
      LookupIs(headers, n + 1, name);
      if !Named(headers[n], name) && Lookup(headers, n + 1, name).Some? {
        var value := Lookup(headers, n + 1, name).value;
        var k :| && n + 1 <= k < |headers| && Named(headers[k], name) && headers[k].value == value
                 && forall j :: n + 1 <= j < k ==> !Named(headers[j], name);
        assert n <= k < |headers| && forall j :: n <= j < k ==> !Named(headers[j], name);
      }
    }
  }

  lemma PointsToIs(headers: Headers, location: string)
    ensures PointsTo(headers, location) <==> location != "" && Lookup(headers, 0, "Location") == Some(location)
  {
    hide Named, Lookup;
    LookupIs(headers, 0, "Location");
  }

  /** What a redirect makes of method and body. */
  predicate IsRewritten(status: nat, before: Request, after: Request) {
    if status == 303
    then after.verb == (if before.verb == Head then Head else Get) && after.body == ""
    else if (status == 301 || status == 302) && before.verb == Post then after.verb == Get && after.body == ""
    else after.verb == before.verb && after.body == before.body
  }

  /** Method and body after one redirect, and where it leads. */
  lemma RedirectExact(policy: Policy, first: Request, hops: seq<Hop>, i: nat) returns (location: string)
    requires IsChain(policy, first, hops) && i + 1 < |hops|
    ensures hops[i].outcome.Ok? && hops[i].outcome.value.status in REDIRECTS && policy.follow && i < policy.max
    ensures IsRewritten(hops[i].outcome.value.status, hops[i].request, hops[i + 1].request)
    ensures hops[i + 1].request.params == []
    ensures PointsTo(hops[i].outcome.value.headers, location) && Place(hops, i).Ok?
    ensures Resolved(Place(hops, i).value, location) == Ok(hops[i + 1].request.url)
  {
    hide ParseUrl, EffectiveUrl, Resolved, RedirectedUpTo, IsExchange, IEquals, Lookup;
    var response := hops[i].outcome.value;
    assert Next(hops[i].request, response) == Ok(hops[i + 1].request);
    location := Lookup(response.headers, 0, "Location").GetOr("");
    PointsToIs(response.headers, location);
  }

  /** As long as every answer is a 307 or a 308, method and body are those of the first request. */
  lemma {:induction false} MethodKept(policy: Policy, first: Request, hops: seq<Hop>, i: nat)
    requires IsChain(policy, first, hops) && i < |hops|
    requires forall j :: 0 <= j < i ==> hops[j].outcome.Ok? && hops[j].outcome.value.status in {307, 308}
    ensures hops[i].request.verb == first.verb && hops[i].request.body == first.body
  {
    hide IsChain, PointsTo, Place, Resolved;
    if i == 0 {
      ChainFirst(policy, first, hops);
    } else {
      MethodKept(policy, first, hops, i - 1);
      var location := RedirectExact(policy, first, hops, i - 1);
    }
  }

  /** A 303, or a 301 or 302 that answers a POST. */
  predicate TurnsToGet(hop: Hop) {
    && hop.outcome.Ok?
    && (hop.outcome.value.status == 303 ||
       ((hop.outcome.value.status == 301 || hop.outcome.value.status == 302) && hop.request.verb == Post))
  }

  lemma DropsAfterIs(hops: seq<Hop>, i: nat)
    requires i < |hops|
    ensures DropsAfter(hops, i) <==> TurnsToGet(hops[i])
  {
  }

  lemma {:induction false} DroppedIs(hops: seq<Hop>, i: nat)
    requires i < |hops|
    ensures Dropped(hops, i) <==> exists j :: 0 <= j < i && TurnsToGet(hops[j])
  {
    hide TurnsToGet, DropsAfter;
    if i > 0 {
      DroppedIs(hops, i - 1);
      DropsAfterIs(hops, i - 1);
    }
  }

  /** The body of any hop: the first request's, or none once some redirect turned it to GET. */
  lemma BodyOfHop(policy: Policy, first: Request, hops: seq<Hop>, i: nat)
    requires IsChain(policy, first, hops) && i < |hops|
    ensures hops[i].request.body ==
            if exists j :: 0 <= j < i && TurnsToGet(hops[j]) then "" else first.body
  {
    hide IsChain, TurnsToGet, Dropped, Redirected;
    ChainForm(policy, first, hops, i);
    DroppedIs(hops, i);
  }

  /** What one redirect does to the method, told by whether it turns it. */
  lemma TurnedIs(hops: seq<Hop>, i: nat)
    requires i + 1 < |hops| && hops[i].outcome.Ok?
    requires IsRewritten(hops[i].outcome.value.status, hops[i].request, hops[i + 1].request)
    ensures var verb := hops[i].request.verb;
            hops[i + 1].request.verb ==
            if !TurnsToGet(hops[i]) then verb else if verb == Head then Head else Get
  {
  }

  /** The method of any hop: the first request's, or once some redirect turned it, GET, and HEAD for HEAD. */
  lemma {:induction false} MethodOfHop(policy: Policy, first: Request, hops: seq<Hop>, i: nat)
    requires IsChain(policy, first, hops) && i < |hops|
    ensures hops[i].request.verb ==
            if !exists j :: 0 <= j < i && TurnsToGet(hops[j]) then first.verb
            else if first.verb == Head then Head
            else Get
  {
    hide IsChain, TurnsToGet, PointsTo, Place, Resolved;
    if i == 0 {
      ChainFirst(policy, first, hops);
    } else {
      MethodOfHop(policy, first, hops, i - 1);
      var location := RedirectExact(policy, first, hops, i - 1);
      TurnedIs(hops, i - 1);
    }
  }

  // ---------- The header list ----------

  const SENSITIVE := ["Host", "Authorization", "Proxy-Authorization", "Cookie"]
  const ENTITY := ["Content-Length", "Transfer-Encoding", "Content-Type"]

  predicate IsOneOf(name: string, names: seq<string>) { exists i :: 0 <= i < |names| && IEquals(name, names[i]) }

  /** The fields with none of these names, in order. */
  function Without(headers: Headers, names: seq<string>): Headers {
    if headers == [] then []
    else (if IsOneOf(headers[0].name, names) then [] else [headers[0]]) + Without(headers[1..], names)
  }

  lemma {:induction false} WithoutMore(headers: Headers, f: Field, names: seq<string>)
    ensures Without(headers + [f], names) == Without(headers, names) + if IsOneOf(f.name, names) then [] else [f]
  {
    hide IsOneOf;
    if headers == [] {
      assert (headers + [f])[1..] == [];
    } else {
      assert (headers + [f])[1..] == headers[1..] + [f] && (headers + [f])[0] == headers[0];
      WithoutMore(headers[1..], f, names);
    }
  }

  lemma SensitiveIs(name: string)
    ensures IsSensitive(name) <==> IsOneOf(name, SENSITIVE)
    ensures IsEntity(name) <==> IsOneOf(name, ENTITY)
  {
    hide IEquals;
    assert SENSITIVE[0] == "Host" && SENSITIVE[1] == "Authorization" && SENSITIVE[2] == "Proxy-Authorization" &&
           SENSITIVE[3] == "Cookie";
    assert ENTITY[0] == "Content-Length" && ENTITY[1] == "Transfer-Encoding" && ENTITY[2] == "Content-Type";
  }

  /** The headers a redirect sends on: without the four sensitive fields if it crosses, without the three entity
   fields if it drops the body, everything else as it was. */
  function SentOn(headers: Headers, cross: bool, drop: bool): Headers {
    var kept := if cross then Without(headers, SENSITIVE) else headers;
    if drop then Without(kept, ENTITY) else kept
  }

  lemma NothingWithout()
    ensures Without([], SENSITIVE) == [] && Without([], ENTITY) == []
  {
  }

  lemma {:induction false} WithoutUpTo(headers: Headers, n: nat)
    requires n <= |headers|
    ensures RedirectedUpTo(headers, n, true, false) == Without(headers[..n], SENSITIVE)
    ensures RedirectedUpTo(headers, n, false, true) == Without(headers[..n], ENTITY)
  {
    hide IsSensitive, IsEntity, IsOneOf, Without;
    if n == 0 {
      NothingWithout();
      assert headers[..0] == [];
    } else {
      WithoutUpTo(headers, n - 1);
      var f := headers[n - 1];
      SensitiveIs(f.name);
      assert headers[..n] == headers[..n - 1] + [f];
      WithoutMore(headers[..n - 1], f, SENSITIVE);
      WithoutMore(headers[..n - 1], f, ENTITY);
    }
  }

  lemma SentOnIs(headers: Headers, cross: bool, drop: bool)
    ensures Redirected(headers, cross, drop) == SentOn(headers, cross, drop)
  {
    hide RedirectedUpTo, Without;
    var kept := Redirected(headers, cross, false);
    WithoutUpTo(headers, |headers|);
    assert headers[..|headers|] == headers;
    RedirectedSame(headers);
    WithoutUpTo(kept, |kept|);
    assert kept[..|kept|] == kept;
    RedirectedCompose(headers, cross, false, false, drop);
    RedirectedSame(kept);
  }

  predicate Moves(a: Result<Parts>, b: Result<Parts>) {
    a.Ok? && b.Ok? && (a.value.port != b.value.port || !IEquals(a.value.host, b.value.host))
  }

  /** Some redirect before hop `i` leads to another port, or to a host that differs in more than case. */
  predicate HasMoved(hops: seq<Hop>, i: nat)
    requires i < |hops|
  {
    exists j :: 0 <= j < i && Moves(Place(hops, j), Place(hops, j + 1))
  }

  lemma {:induction false} CrossedIs(hops: seq<Hop>, i: nat)
    requires i < |hops|
    ensures Crossed(hops, i) <==> HasMoved(hops, i)
  {
    hide Place, IEquals;
    if i > 0 {
      CrossedIs(hops, i - 1);
      assert CrossesAfter(hops, i - 1) <==> Moves(Place(hops, i - 1), Place(hops, i));
    }
  }

  /** The headers of any hop, from those of the first and from where the chain went. */
  lemma HeadersOfHop(policy: Policy, first: Request, hops: seq<Hop>, i: nat)
    requires IsChain(policy, first, hops) && i < |hops|
    ensures hops[i].request.headers ==
            SentOn(first.headers, HasMoved(hops, i), exists j :: 0 <= j < i && TurnsToGet(hops[j]))
  {
    hide IsChain, TurnsToGet, Dropped, Crossed, HasMoved, Redirected, SentOn;
    ChainForm(policy, first, hops, i);
    DroppedIs(hops, i);
    CrossedIs(hops, i);
    SentOnIs(first.headers, Crossed(hops, i), Dropped(hops, i));
  }

  // ---------- The end of a run ----------

  /** What a run returns that follows redirects and stops at one. */
  ghost predicate StopsAtRedirect(policy: Policy, hops: seq<Hop>, r: Result<Parser.Response>)
    requires hops != [] && hops[|hops| - 1].outcome.Ok?
  {
    var last := hops[|hops| - 1];
    var headers := last.outcome.value.headers;
    if |hops| == 1 + policy.max then r == Err(RedirectLimitExceeded)
    else if forall location: string :: !PointsTo(headers, location) then r == Err(MissingRedirectLocation)
    else exists location: string :: && PointsTo(headers, location) && Place(hops, |hops| - 1).Ok? && r.Err?
                                    && Resolved(Place(hops, |hops| - 1).value, location) == Err(r.error)
  }

  /** Where a redirect leads, or why it leads nowhere. */
  lemma NextExact(request: Request, response: Parser.Response)
    requires ParseUrl(EffectiveUrl(request)).Ok?
    ensures var base, next := ParseUrl(EffectiveUrl(request)).value, Next(request, response);
            if forall location: string :: !PointsTo(response.headers, location)
            then next == Err(MissingRedirectLocation)
            else exists location: string ::
                   && PointsTo(response.headers, location)
                   && match Resolved(base, location)
                      case Err(e) => next == Err(e)
                      case Ok(url) => next.Ok? && next.value.url == url
  {
    hide ParseUrl, EffectiveUrl, Resolved, RedirectedUpTo, IEquals, Lookup, PointsTo, RedirectBehavior;
    var base := ParseUrl(EffectiveUrl(request)).value;
    forall location: string
      ensures PointsTo(response.headers, location) <==>
              location != "" && Lookup(response.headers, 0, "Location") == Some(location)
    {
      PointsToIs(response.headers, location);
    }
    var location := Lookup(response.headers, 0, "Location").GetOr("");
    assert location != "" ==> PointsTo(response.headers, location);
    if location != "" && Resolved(base, location).Ok? {
      RedirectProofs.ResolvedParses(base, location);
    }
  }

  predicate IsFollowed(hop: Hop) { hop.outcome.Ok? && hop.outcome.value.status in REDIRECTS }

  lemma NextOfLast(hops: seq<Hop>)
    requires hops != [] && hops[|hops| - 1].outcome.Ok? && Place(hops, |hops| - 1).Ok?
    ensures var last := hops[|hops| - 1];
            var base, next := Place(hops, |hops| - 1).value, Next(last.request, last.outcome.value);
            if forall location: string :: !PointsTo(last.outcome.value.headers, location)
            then next == Err(MissingRedirectLocation)
            else exists location: string ::
                   && PointsTo(last.outcome.value.headers, location)
                   && match Resolved(base, location)
                      case Err(e) => next == Err(e)
                      case Ok(url) => next.Ok? && next.value.url == url
  {
    hide Next, PointsTo, Resolved, ParseUrl, EffectiveUrl;
    NextExact(hops[|hops| - 1].request, hops[|hops| - 1].outcome.value);
  }

  lemma LastPlace(policy: Policy, first: Request, hops: seq<Hop>)
    requires IsChain(policy, first, hops) && hops[|hops| - 1].outcome.Ok?
    ensures Place(hops, |hops| - 1).Ok?
  {
    hide Serialized, Next, Answers, Explains, Continues, ParseUrl, EffectiveUrl;
    var last := hops[|hops| - 1];
    assert IsExchange(policy.limits, last);
    FirstUrlParses(last.request);
  }

  lemma AllFollowed(policy: Policy, first: Request, hops: seq<Hop>)
    requires IsChain(policy, first, hops)
    ensures (|hops| > 1 ==> policy.follow) && forall i :: 0 <= i < |hops| - 1 ==> IsFollowed(hops[i])
  {
    hide IsChain, Place, PointsTo, Resolved;
    forall i | 0 <= i < |hops| - 1 ensures IsFollowed(hops[i]) {
      var location := RedirectExact(policy, first, hops, i);
    }
    if |hops| > 1 {
      var location := RedirectExact(policy, first, hops, 0);
    }
  }

  /**
   What a run returns. The error of its last exchange; its response if redirects are not followed or it is none; and
   otherwise the limit error if and only if all permitted redirects are used, or why the redirect leads nowhere.
   */
  lemma RunExact(policy: Policy, first: Request, hops: seq<Hop>, r: Result<Parser.Response>)
    requires IsRun(policy, first, hops, r)
    ensures 1 <= |hops| <= 1 + policy.max
    ensures var last := hops[|hops| - 1].outcome;
            if last.Err? || !policy.follow || last.value.status !in REDIRECTS then r == last
            else StopsAtRedirect(policy, hops, r)
    ensures (|hops| > 1 ==> policy.follow) && forall i :: 0 <= i < |hops| - 1 ==> IsFollowed(hops[i])
  {
    hide IsChain, Next, Place, PointsTo, Resolved, IsFollowed;
    RunEnds(policy, first, hops, r);
    AllFollowed(policy, first, hops);
    var last := hops[|hops| - 1];
    if last.outcome.Ok? {
      LastPlace(policy, first, hops);
      NextOfLast(hops);
    }
  }
}
