/** What the client promises over whole runs: what a redirect chain may carry where, that its requests
 stay valid, and that both directions of a kept connection stay in step. */
module ClientProofs {
  import opened Results
  import opened Text
  import opened Limits
  import opened Heads
  import opened Urls
  import opened Redirects
  import opened Serializer
  import opened SerializerProofs
  import opened Sockets
  import opened Clients
  import ParserProofs
  import RedirectProofs

  // ---------- Rewriting headers ----------

  lemma {:induction false} RedirectedFront(a: Headers, b: Headers, n: nat, cross: bool, drop: bool)
    requires n <= |a|
    ensures RedirectedUpTo(a + b, n, cross, drop) == RedirectedUpTo(a, n, cross, drop)
  {
    hide Survives;
    if n > 0 {
      RedirectedFront(a, b, n - 1, cross, drop);
    }
  }

  lemma RedirectedAppend(a: Headers, f: Field, cross: bool, drop: bool)
    ensures Redirected(a + [f], cross, drop) == Redirected(a, cross, drop) + if Survives(f, cross, drop) then [f]
            else []
  {
    hide Survives;
    RedirectedFront(a, [f], |a|, cross, drop);
    assert (a + [f])[|a|] == f;
  }

  lemma RedirectedNone(cross: bool, drop: bool)
    ensures Redirected([], cross, drop) == []
  {
  }

  /** Rewriting twice is rewriting once for both reasons. */
  lemma {:induction false} RedirectedTwice(headers: Headers, n: nat, c1: bool, d1: bool, c2: bool, d2: bool)
    requires n <= |headers|
    ensures Redirected(RedirectedUpTo(headers, n, c1, d1), c2, d2) == RedirectedUpTo(headers, n, c1 || c2, d1 || d2)
  {
    hide IsSensitive, IsEntity, Redirected;
    if n == 0 {
      RedirectedNone(c2, d2);
    } else {
      var before, f := RedirectedUpTo(headers, n - 1, c1, d1), headers[n - 1];
      RedirectedTwice(headers, n - 1, c1, d1, c2, d2);
      RedirectedAppend(before, f, c2, d2);
      assert before + [] == before;
      var after := RedirectedUpTo(headers, n - 1, c1 || c2, d1 || d2);
      assert after + [] == after;
    }
  }

  lemma RedirectedCompose(headers: Headers, c1: bool, d1: bool, c2: bool, d2: bool)
    ensures Redirected(Redirected(headers, c1, d1), c2, d2) == Redirected(headers, c1 || c2, d1 || d2)
  {
    hide RedirectedUpTo;
    RedirectedTwice(headers, |headers|, c1, d1, c2, d2);
  }

  /** Rewriting for no reason changes nothing. */
  lemma {:induction false} RedirectedNot(headers: Headers, n: nat)
    requires n <= |headers|
    ensures RedirectedUpTo(headers, n, false, false) == headers[..n]
  {
    if n > 0 {
      RedirectedNot(headers, n - 1);
      assert headers[..n] == headers[..n - 1] + [headers[n - 1]];
    }
  }

  /** The positions in `all` that `part` was taken from, in order. */
  predicate PickedAt(part: Headers, all: Headers, at: seq<nat>) {
    && |at| == |part| && (forall i :: 0 <= i < |at| ==> at[i] < |all| && part[i] == all[at[i]])
    && (forall i, j :: 0 <= i < j < |at| ==> at[i] < at[j])
  }

  /** What survives is a subsequence, in the original order, of fields that may be sent on. */
  lemma {:induction false} RedirectedPicked(headers: Headers, n: nat, cross: bool, drop: bool) returns (at: seq<nat>)
    requires n <= |headers|
    ensures PickedAt(RedirectedUpTo(headers, n, cross, drop), headers, at) && (forall i :: 0 <= i < |at| ==> at[i] < n)
    ensures forall i :: 0 <= i < |at| ==> Survives(headers[at[i]], cross, drop)
  {
    hide Survives;
    at := [];
    if n > 0 {
      at := RedirectedPicked(headers, n - 1, cross, drop);
      if Survives(headers[n - 1], cross, drop) {
        at := at + [n - 1];
      }
    }
  }

  // ---------- The chain ----------

  /** Where hop `i` goes. */
  function Place(hops: seq<Hop>, i: nat): Result<Parts>
    requires i < |hops|
  {
    ParseUrl(EffectiveUrl(hops[i].request))
  }

  predicate CrossesAfter(hops: seq<Hop>, i: nat)
    requires i + 1 < |hops|
  {
    Place(hops, i).Ok? && Place(hops, i + 1).Ok? && !SameOrigin(Place(hops, i).value, Place(hops, i + 1).value)
  }

  predicate DropsAfter(hops: seq<Hop>, i: nat)
    requires i < |hops|
  {
    hops[i].outcome.Ok? && !RedirectBehavior(hops[i].outcome.value.status, hops[i].request.verb).preserveBody
  }

  /** Some redirect before hop `i` changed the origin. */
  predicate Crossed(hops: seq<Hop>, i: nat)
    requires i < |hops|
  {
    i > 0 && (Crossed(hops, i - 1) || CrossesAfter(hops, i - 1))
  }

  /** Some redirect before hop `i` dropped the body. */
  predicate Dropped(hops: seq<Hop>, i: nat)
    requires i < |hops|
  {
    i > 0 && (Dropped(hops, i - 1) || DropsAfter(hops, i - 1))
  }

  lemma NextStep(request: Request, response: Parser.Response)
    requires Next(request, response).Ok?
    ensures var next := Next(request, response).value;
            && ParseUrl(next.url).Ok? && Lacks(next.url, '#') && EffectiveUrl(next) == next.url
            && ParseUrl(EffectiveUrl(request)).Ok?
  {
    hide ParseUrl, EffectiveUrl, Resolved, RedirectedUpTo, Lookup, IEquals;
    var base := ParseUrl(EffectiveUrl(request)).value;
    RedirectProofs.ResolvedParses(base, Lookup(response.headers, 0, "Location").GetOr(""));
    NoFragmentNoParams(Next(request, response).value);
  }

  /** One redirect, from what it leads from to what it leads to. */
  lemma HopStep(policy: Policy, first: Request, hops: seq<Hop>, i: nat)
    requires IsChain(policy, first, hops) && i + 1 < |hops|
    ensures var here, there := hops[i].request, hops[i + 1].request;
            && Place(hops, i).Ok? && Place(hops, i + 1).Ok? && hops[i].outcome.Ok? &&
               ParseUrl(there.url) == Place(hops, i + 1)
            && there.params == [] && there.verb == RedirectBehavior(hops[i].outcome.value.status, here.verb).newMethod
            && there.headers == Redirected(here.headers, CrossesAfter(hops, i), DropsAfter(hops, i))
            && there.body == if DropsAfter(hops, i) then "" else here.body
    ensures i < policy.max && policy.follow && IsRedirectStatus(hops[i].outcome.value.status)
  {
    hide ParseUrl, EffectiveUrl, Resolved, RedirectedUpTo, IsExchange, IEquals, Lookup;
    assert Next(hops[i].request, hops[i].outcome.value) == Ok(hops[i + 1].request);
    NextStep(hops[i].request, hops[i].outcome.value);
  }

  lemma MethodAfterDrop(status: nat, verb: Method)
    ensures var b := RedirectBehavior(status, verb);
            && (IsRedirectStatus(status) && !b.preserveBody ==> b.newMethod == Get || b.newMethod == Head)
            && (verb == Get || verb == Head ==> b.newMethod == Get || b.newMethod == Head)
  {
  }

  lemma SoFar(hops: seq<Hop>, i: nat)
    requires i < |hops|
    ensures Crossed(hops, i) == (i > 0 && (Crossed(hops, i - 1) || CrossesAfter(hops, i - 1)))
    ensures Dropped(hops, i) == (i > 0 && (Dropped(hops, i - 1) || DropsAfter(hops, i - 1)))
  {
    hide CrossesAfter, DropsAfter;
  }

  lemma DropIsByRedirect(hops: seq<Hop>, i: nat)
    requires i < |hops| && hops[i].outcome.Ok? && IsRedirectStatus(hops[i].outcome.value.status)
    ensures var m, verb := RedirectBehavior(hops[i].outcome.value.status, hops[i].request.verb).newMethod,
            hops[i].request.verb;
            DropsAfter(hops, i) || verb == Get || verb == Head ==> m == Get || m == Head
  {
    MethodAfterDrop(hops[i].outcome.value.status, hops[i].request.verb);
  }

  lemma RedirectedSame(headers: Headers)
    ensures Redirected(headers, false, false) == headers
  {
    RedirectedNot(headers, |headers|);
    assert headers[..|headers|] == headers;
  }

  lemma ChainFirst(policy: Policy, first: Request, hops: seq<Hop>)
    requires IsChain(policy, first, hops)
    ensures hops != [] && hops[0].request == first
  {
  }

  /**
   Every hop's request in closed form: the first request's headers rewritten once for whatever happened
   so far, its body or none, and a bodiless method once the body is gone.
   */
  lemma {:induction false} ChainForm(policy: Policy, first: Request, hops: seq<Hop>, i: nat)
    requires IsChain(policy, first, hops) && i < |hops|
    ensures var r := hops[i].request;
            && r.headers == Redirected(first.headers, Crossed(hops, i), Dropped(hops, i))
            && r.body == (if Dropped(hops, i) then "" else first.body)
            && (Dropped(hops, i) ==> r.verb == Get || r.verb == Head)
            && (i > 0 ==> r.params == [])
            && i <= policy.max
  {
    hide IsChain, Redirected, CrossesAfter, DropsAfter, RedirectBehavior, Place, ParseUrl, Crossed, Dropped,
         IsRedirectStatus;
    SoFar(hops, i);
    if i == 0 {
      ChainFirst(policy, first, hops);
      RedirectedSame(first.headers);
    } else {
      ChainForm(policy, first, hops, i - 1);
      HopStep(policy, first, hops, i - 1);
      DropIsByRedirect(hops, i - 1);
      RedirectedCompose(first.headers, Crossed(hops, i - 1), Dropped(hops, i - 1), CrossesAfter(hops, i - 1),
        DropsAfter(hops, i - 1));
    }
  }

  lemma SameOriginTransitive(a: Parts, b: Parts, c: Parts)
    requires SameOrigin(a, b) && SameOrigin(b, c)
    ensures SameOrigin(a, c)
  {
    hide IEquals;
    IEqualsTransitive(a.host, b.host, c.host);
  }

  lemma SameOriginReflexive(a: Parts)
    ensures SameOrigin(a, a)
  {
  }

  /** As long as no redirect crosses, the chain stays at the first request's origin. */
  lemma {:induction false} OriginKept(policy: Policy, first: Request, hops: seq<Hop>, i: nat)
    requires IsChain(policy, first, hops) && i < |hops| && |hops| > 1 && !Crossed(hops, i)
    ensures Place(hops, 0).Ok? && Place(hops, i).Ok? && SameOrigin(Place(hops, 0).value, Place(hops, i).value)
  {
    hide IsChain, SameOrigin, ParseUrl, EffectiveUrl;
    if i == 0 {
      HopStep(policy, first, hops, 0);
      SameOriginReflexive(Place(hops, 0).value);
    } else {
      OriginKept(policy, first, hops, i - 1);
      HopStep(policy, first, hops, i - 1);
      SameOriginTransitive(Place(hops, 0).value, Place(hops, i - 1).value, Place(hops, i).value);
    }
  }

  /**
   The redirect-chain invariant: the headers of every hop are an in-order selection of the original ones;
   a Host, Authorization, Proxy-Authorization or Cookie field is among them only at the original origin;
   no Content-Length, Transfer-Encoding or Content-Type is among them once the body is gone.
   */
  lemma ChainCarries(policy: Policy, first: Request, hops: seq<Hop>, i: nat) returns (at: seq<nat>)
    requires IsChain(policy, first, hops) && i < |hops|
    ensures PickedAt(hops[i].request.headers, first.headers, at)
    ensures i > 0 && (exists f :: f in hops[i].request.headers && IsSensitive(f.name)) ==>
            Place(hops, 0).Ok? && Place(hops, i).Ok? && SameOrigin(Place(hops, 0).value, Place(hops, i).value)
    ensures Dropped(hops, i) ==> forall f :: f in hops[i].request.headers ==> !IsEntity(f.name)
  {
    hide IsChain, SameOrigin, Place, IsSensitive, IsEntity, RedirectedUpTo, Crossed, Dropped;
    var headers := hops[i].request.headers;
    ChainForm(policy, first, hops, i);
    at := RedirectedPicked(first.headers, |first.headers|, Crossed(hops, i), Dropped(hops, i));
    assert forall f :: f in headers ==> Survives(f, Crossed(hops, i), Dropped(hops, i)) by {
      forall f | f in headers ensures Survives(f, Crossed(hops, i), Dropped(hops, i)) {
        var k :| 0 <= k < |headers| && headers[k] == f;
        assert headers[k] == first.headers[at[k]];
      }
    }
    if i > 0 && !Crossed(hops, i) {
      OriginKept(policy, first, hops, i);
    }
  }

  // ---------- Later hops stay valid ----------

  lemma HostIsSensitive(f: Field)
    ensures Named(f, "Host") ==> IsSensitive(f.name) && !IsEntity(f.name)
    ensures Named(f, "Content-Length") ==> IsEntity(f.name) && !IsSensitive(f.name)
  {
  }

  lemma ValuesOfOne(before: Headers, f: Field, name: string)
    ensures Values(before + [f], name) == Values(before, name) + if Named(f, name) then [f.value] else []
  {
    hide Named, Values;
    ValuesConcat(before, [f], name);
    ValuesOfFew(f, name);
  }

  lemma {:induction false} RedirectedValues(headers: Headers, n: nat, cross: bool, drop: bool)
    requires n <= |headers|
    ensures Values(RedirectedUpTo(headers, n, cross, drop), "Host") == if cross then []
            else ValuesUpTo(headers, n, "Host")
    ensures Values(RedirectedUpTo(headers, n, cross, drop), "Content-Length") == if drop then []
            else ValuesUpTo(headers, n, "Content-Length")
  {
    hide IsSensitive, IsEntity, Named, Values;
    if n == 0 {
      ValuesOfFew(Field("", ""), "Host");
      ValuesOfFew(Field("", ""), "Content-Length");
    } else {
      var before, f := RedirectedUpTo(headers, n - 1, cross, drop), headers[n - 1];
      RedirectedValues(headers, n - 1, cross, drop);
      HostIsSensitive(f);
      ValuesOfOne(before, f, "Host");
      ValuesOfOne(before, f, "Content-Length");
      assert before + [] == before;
    }
  }

  lemma {:induction false} RedirectedAcceptable(headers: Headers, n: nat, cross: bool, drop: bool)
    requires n <= |headers| && AcceptableFields(headers)
    ensures AcceptableFields(RedirectedUpTo(headers, n, cross, drop))
  {
    hide AcceptableField, Survives;
    if n > 0 {
      RedirectedAcceptable(headers, n - 1, cross, drop);
    }
  }

  /** A redirected request passes the checks its original passed. */
  lemma RedirectedIsAcceptable(first: Request, next: Request, cross: bool, drop: bool)
    requires Acceptable(first) && next.headers == Redirected(first.headers, cross, drop)
    requires next.body == if drop then "" else first.body
    ensures Acceptable(next)
  {
    hide AcceptableFields, Number, ValuesUpTo;
    RedirectedAcceptable(first.headers, |first.headers|, cross, drop);
    RedirectedValues(first.headers, |first.headers|, cross, drop);
  }

  /** Once the first request serializes, every later one of the chain does. */
  lemma LaterHopsSerialize(policy: Policy, first: Request, hops: seq<Hop>, i: nat)
    requires IsChain(policy, first, hops) && i < |hops| && Serialized(first).Ok?
    ensures Serialized(hops[i].request).Ok?
  {
    hide IsChain, Serialized, Redirected, Acceptable, ParseUrl, Crossed, Dropped, Place;
    ChainFirst(policy, first, hops);
    if i > 0 {
      AcceptableExact(first);
      ChainForm(policy, first, hops, i);
      RedirectedIsAcceptable(first, hops[i].request, Crossed(hops, i), Dropped(hops, i));
      HopStep(policy, first, hops, i - 1);
      AcceptableExact(hops[i].request);
    }
  }

  /** So what ends a run after its first exchange is never the serializer. */
  lemma LaterErrorsAreExchanges(policy: Policy, first: Request, hops: seq<Hop>, i: nat)
    requires IsChain(policy, first, hops) && 0 < i < |hops| && hops[i].outcome.Err?
    ensures Explains(hops[i].request.verb, policy.limits, hops[i].bytes, hops[i].outcome.error)
  {
    hide Serialized, Continues, Next, Explains, Answers;
    HopStep(policy, first, hops, 0);
    ExchangeSerializes(policy.limits, hops[0]);
    LaterHopsSerialize(policy, first, hops, i);
  }

  /** A run makes at most 1 + max exchanges, and one that succeeds while following ends at no redirect. */
  lemma RunEnds(policy: Policy, first: Request, hops: seq<Hop>, r: Result<Parser.Response>)
    requires IsRun(policy, first, hops, r)
    ensures 1 <= |hops| <= 1 + policy.max
    ensures r.Ok? ==> r == hops[|hops| - 1].outcome && (policy.follow ==> !IsRedirectStatus(r.value.status))
    ensures r.Ok? && !policy.follow ==> |hops| == 1
  {
    hide IsChain, Next;
    ChainFirst(policy, first, hops);
    ChainForm(policy, first, hops, |hops| - 1);
    if |hops| > 1 {
      HopStep(policy, first, hops, 0);
    }
  }

  // ---------- Kept connections stay in step ----------

  /** The same requests on the same kind of client: methods and limits agree. */
  predicate SameCalls(done: seq<Exchange>, sent: seq<Exchange>) {
    |done| <= |sent| && forall i :: 0 <= i < |done| ==>
      done[i].request.verb == sent[i].request.verb && done[i].limits == sent[i].limits
  }

  lemma {:induction false} PrefixOfAll(es: seq<Exchange>, n: nat)
    requires n <= |es|
    ensures BytesOf(es[..n]) <= BytesOf(es)
    decreases |es|
  {
    if n < |es| {
      assert es[..|es| - 1][..n] == es[..n];
      PrefixOfAll(es[..|es| - 1], n);
    } else {
      assert es[..n] == es;
    }
  }

  lemma BytesPrefix(es: seq<Exchange>, n: nat)
    requires 0 < n <= |es|
    ensures BytesOf(es[..n]) == BytesOf(es[..n - 1]) + es[n - 1].bytes
    ensures BytesOf(es[..n]) <= BytesOf(es)
  {
    assert es[..n][..n - 1] == es[..n - 1];
    PrefixOfAll(es, n);
  }

  lemma OneIsPrefix(front: string, a: string, b: string, all: string, some: string)
    requires front + a <= some <= all && front + b <= all
    ensures a <= b || b <= a
  {
    var x, y := front + a, front + b;
    assert forall k :: 0 <= k < |a| ==> a[k] == x[|front| + k] == all[|front| + k];
    assert forall k :: 0 <= k < |b| ==> b[k] == y[|front| + k] == all[|front| + k];
  }

  lemma SameResponse(d: Exchange, s: Exchange)
    requires d.IsWhole() && s.IsWhole() && d.request.verb == s.request.verb && d.limits == s.limits &&
             (d.bytes <= s.bytes || s.bytes <= d.bytes)
    ensures d.bytes == s.bytes && d.state == s.state
  {
    hide ParserProofs.IsWhole;
    if d.bytes <= s.bytes {
      ParserProofs.PrefixFree(d.request.verb, d.limits, d.bytes, s.bytes, d.state, s.state);
    } else {
      ParserProofs.PrefixFree(d.request.verb, d.limits, s.bytes, d.bytes, s.state, d.state);
    }
  }

  /** Two streams of whole responses to the same requests, one a prefix of the other, agree response by response. */
  lemma {:induction false} InStep(done: seq<Exchange>, served: seq<Exchange>, n: nat)
    requires AllWhole(done) && AllWhole(served) && SameCalls(done, served) && BytesOf(done) <= BytesOf(served) &&
             n <= |done|
    ensures BytesOf(done[..n]) == BytesOf(served[..n])
    ensures forall i :: 0 <= i < n ==> done[i].bytes == served[i].bytes && done[i].state == served[i].state
  {
    hide BytesOf, Exchange.IsWhole;
    if n == 0 {
      assert done[..0] == served[..0];
    } else {
      var d, s := done[n - 1], served[n - 1];
      InStep(done, served, n - 1);
      BytesPrefix(done, n);
      BytesPrefix(served, n);
      var front := BytesOf(done[..n - 1]);
      OneIsPrefix(front, d.bytes, s.bytes, BytesOf(served), BytesOf(done));
      assert AllWhole(done) && AllWhole(served);
      SameResponse(d, s);
    }
  }

  /**
   Connection synchrony: on a kept connection whose peer serves one whole response per request, the i-th
   exchange returned the i-th response and used exactly its bytes.
   */
  lemma ExchangesMatchResponses(b: Book, h: int, served: seq<Exchange>)
    requires b.InSync(h) && AllWhole(served) && SameCalls(b.exchanges[h], served) && b.received[h] <= BytesOf(served)
    ensures forall i :: 0 <= i < |b.exchanges[h]| ==>
              b.exchanges[h][i].bytes == served[i].bytes && b.exchanges[h][i].state.response == served[i].state.response
    ensures b.received[h] == BytesOf(served[..|b.exchanges[h]|])
  {
    hide BytesOf, SentOf, Exchange.IsWhole;
    var done := b.exchanges[h];
    InStep(done, served, |done|);
    assert done[..|done|] == done;
  }

  ghost function TextsOf(exchanges: seq<Exchange>): seq<RequestText>
    requires AllSent(exchanges)
  {
    seq(|exchanges|, i requires 0 <= i < |exchanges| => TextOf(exchanges[i].request))
  }

  /** Every body is of a size a string can have. */
  predicate AllSized(exchanges: seq<Exchange>) {
    forall i :: 0 <= i < |exchanges| ==> |exchanges[i].request.body| <= SIZE_MAX
  }

  lemma NoRequestInNothing()
    ensures ReadRequest("") == None && ReadRequests("") == Some([])
  {
  }

  lemma OneRead(r: Request, rest: string, more: seq<RequestText>)
    requires Serialized(r).Ok? && |r.body| <= SIZE_MAX && ReadRequests(rest) == Some(more)
    ensures ReadRequests(Serialized(r).value.Bytes() + rest) == Some([TextOf(r)] + more)
  {
    hide Serialized, TextOf, Wire.Bytes, ReadRequest;
    RequestReads(r, rest);
    NoRequestInNothing();
  }

  lemma {:induction false} SentReads(exchanges: seq<Exchange>, rest: string, more: seq<RequestText>)
    requires AllSent(exchanges) && AllSized(exchanges) && ReadRequests(rest) == Some(more)
    ensures ReadRequests(SentOf(exchanges) + rest) == Some(TextsOf(exchanges) + more)
    decreases |exchanges|
  {
    hide Serialized, TextOf, Wire.Bytes, ReadRequests;
    if exchanges == [] {
      assert "" + rest == rest && TextsOf(exchanges) + more == more;
    } else {
      var front, last := exchanges[..|exchanges| - 1], exchanges[|exchanges| - 1];
      assert last.IsSent();
      OneRead(last.request, rest, more);
      SentReads(front, last.sent + rest, [TextOf(last.request)] + more);
      Regroup(SentOf(front), last.sent, rest);
      assert TextsOf(exchanges) + more == TextsOf(front) + ([TextOf(last.request)] + more);
    }
  }

  /**
   The peer's side of synchrony: what was sent on a connection at a message boundary reads back as exactly the
   requests of its exchanges, in order, with nothing left over.
   */
  lemma RequestsInStep(b: Book, h: int)
    requires b.InSync(h) && AllSized(b.exchanges[h])
    ensures ReadRequests(b.sent[h]) == Some(TextsOf(b.exchanges[h]))
  {
    hide SentOf, BytesOf, TextsOf, ReadRequests, Exchange.IsSent, Exchange.IsWhole;
    var done := b.exchanges[h];
    NoRequestInNothing();
    SentReads(done, "", []);
    assert SentOf(done) + "" == SentOf(done) && TextsOf(done) + [] == TextsOf(done);
  }

  /** A state in which the stream may end: complete for good, or reading to the end and never complete by feeding. */
  lemma EndedStays(m: Method, lim: ResponseLimits, st: Parser.State, u: string)
    requires st.stage == Parser.Complete || Parser.Ended(lim, st).Ok?
    ensures var next := Parser.Fed(m, lim, st, u);
            if st.stage == Parser.Complete then next == Ok(ParserProofs.More(st, u))
            else next.Ok? ==> next.value.stage != Parser.Complete
  {
    hide Parser.ReadHeads;
    ParserProofs.PastHead(m, lim, ParserProofs.More(st, u));
  }

  /**
   Whatever was read for an answered request, if it agrees with a whole response as far as both go, the answer is
   that response: bytes beyond it do not change it, and no shorter text, not even at the end of stream, answers.
   */
  lemma AnswerIsResponse(m: Method, lim: ResponseLimits, w: string, r: Parser.Response, v: string, st: Parser.State)
    requires Answers(m, lim, w, r) && ParserProofs.IsWhole(m, lim, v, st) && (w <= v || v <= w)
    ensures r == st.response
  {
    hide Parser.Fed, Parser.Ended;
    if v <= w {
      ParserProofs.NoLookahead(m, lim, v, st, w[|v|..]);
      assert v + w[|v|..] == w;
    } else {
      var e, u := Parser.Fed(m, lim, Parser.START, w).value, v[|w|..];
      assert w + u == v;
      ParserProofs.FeedSplit(m, lim, Parser.START, w, u);
      EndedStays(m, lim, e, u);
    }
  }

  /** What was exchanged before on the connection that an exchange with this origin uses. */
  function Past(before: World, p: Parts): seq<Exchange> {
    if before.Reuses(p) && before.Token() in before.books.exchanges then before.books.exchanges[before.Token()] else []
  }

  lemma PastInSync(before: World, p: Parts)
    requires before.Sound()
    ensures AllWhole(Past(before, p))
    ensures before.Reuses(p) ==>
            && before.Token() in before.books.exchanges && before.Token() in before.books.received
            && Past(before, p) == before.books.exchanges[before.Token()]
            && before.books.received[before.Token()] == BytesOf(Past(before, p))
  {
    hide BytesOf, SentOf, Exchange.IsWhole, IEquals;
  }

  lemma PrefixOfSum(a: string, b: string, all: string)
    requires a + b <= all
    ensures a <= all
  {
  }

  lemma NextIsWhole(e: Exchange)
    requires e.IsWhole()
    ensures ParserProofs.IsWhole(e.request.verb, e.limits, e.bytes, e.state)
  {
  }

  lemma KeptIsWhole(hop: Hop, lim: ResponseLimits)
    requires Retains(hop.request.verb, lim, hop.bytes, hop.request.headers)
    ensures var e := ExchangeOf(hop.request, lim, hop.sent, hop.bytes);
            e.IsWhole() && e.bytes == hop.bytes && e.request == hop.request && e.limits == lim
  {
    hide Retains, Parser.Fed;
    MayBeKept(hop.request.verb, lim, hop.bytes, hop.request.headers);
    WholeExchange(hop.request, lim, hop.sent, hop.bytes);
  }

  /** On a stream of whole responses, the bytes after those used so far go on as the next response does. */
  lemma ServedNext(past: seq<Exchange>, served: seq<Exchange>, w: string)
    requires AllWhole(past) && AllWhole(served) && SameCalls(past, served) && |past| < |served|
    requires BytesOf(past) + w <= BytesOf(served)
    ensures served[|past|].IsWhole() && (w <= served[|past|].bytes || served[|past|].bytes <= w)
  {
    hide BytesOf, Exchange.IsWhole;
    var n := |past|;
    PrefixOfSum(BytesOf(past), w, BytesOf(served));
    InStep(past, served, n);
    assert past[..n] == past;
    BytesPrefix(served, n + 1);
    OneIsPrefix(BytesOf(past), w, served[n].bytes, BytesOf(served), BytesOf(past) + w);
  }

  lemma AnswerOfStep(lim: ResponseLimits, before: World, hop: Hop, after: World)
    requires before.Sound() && Steps(lim, before, hop, after) && hop.outcome.Ok?
    ensures Serialized(hop.request).Ok? && Answers(hop.request.verb, lim, hop.bytes, hop.outcome.value)
    ensures after.kept.Some? ==> Retains(hop.request.verb, lim, hop.bytes, hop.request.headers)
  {
    hide World.Sound, Serialized, Answers, Explains, Retains, ExchangeOf, IEquals, Acquired, Settled;
  }

  /**
   Connection synchrony, for every answered request: on a connection, new or reused, whose peer serves one whole
   response per request, the answer is the response served for this request. It holds whether the connection is
   kept or closed afterwards, and with whatever later bytes were already read.
   */
  lemma ExchangeReturnsResponse(lim: ResponseLimits, before: World, hop: Hop, after: World, served: seq<Exchange>)
    requires before.Sound() && Steps(lim, before, hop, after) && hop.outcome.Ok?
    requires var past := Past(before, Serialized(hop.request).value.parts);
             && AllWhole(served) && SameCalls(past, served) && |past| < |served|
             && served[|past|].request.verb == hop.request.verb && served[|past|].limits == lim
             && BytesOf(past) + hop.bytes <= BytesOf(served)
    ensures var n := |Past(before, Serialized(hop.request).value.parts)|;
            hop.outcome.value == served[n].state.response && (after.kept.Some? ==> hop.bytes == served[n].bytes)
  {
    hide Serialized, BytesOf, SentOf, Retains, Answers, Explains, ExchangeOf, Parser.Fed, Exchange.IsWhole, IEquals,
         Steps, AllWhole, SameCalls, World.Sound, ParserProofs.IsWhole;
    AnswerOfStep(lim, before, hop, after);
    var past := Past(before, Serialized(hop.request).value.parts);
    var next := served[|past|];
    PastInSync(before, Serialized(hop.request).value.parts);
    ServedNext(past, served, hop.bytes);
    NextIsWhole(next);
    AnswerIsResponse(next.request.verb, lim, hop.bytes, hop.outcome.value, next.bytes, next.state);
    if after.kept.Some? {
      KeptIsWhole(hop, lim);
      var e := ExchangeOf(hop.request, lim, hop.sent, hop.bytes);
      SameResponse(e, next);
    }
  }
}
