/** The client (src/core/client.cpp): at most one kept connection, and the bounded redirect loop. */
module Clients {
  import opened Results
  import opened Text
  import opened Limits
  import opened Heads
  import opened Urls
  import opened Redirects
  import opened Serializer
  import opened Sockets
  import Parser
  import ParserProofs
  import RedirectProofs
  import SerializerProofs

  const READ_BUFFER: nat := 16384

  // ---------- Headers and origins ----------

  function Lookup(headers: Headers, n: nat, name: string): Option<string>
    requires n <= |headers|
    decreases |headers| - n
  {
    if n == |headers| then None
    else if Named(headers[n], name) then Some(headers[n].value)
    else Lookup(headers, n + 1, name)
  }

  /** Headers::contains and Headers::get. */
  method FieldValue(headers: Headers, name: string) returns (value: Option<string>)
    ensures value == Lookup(headers, 0, name)
  {
    hide Named;
    for i := 0 to |headers|
      invariant Lookup(headers, i, name) == Lookup(headers, 0, name)
    {
      if Named(headers[i], name) {
        return Some(headers[i].value);
      }
    }
    return None;
  }

  method RequestWantsConnectionClose(headers: Headers) returns (close: bool)
    ensures close == Parser.Closes(headers)
  {
    hide Named, HasToken;
    for i := 0 to |headers|
      invariant !ClosesUpTo(headers, i)
    {
      if Named(headers[i], "Connection") {
        var found := ContainsToken(headers[i].value, "close");
        if found {
          return true;
        }
      }
    }
    return false;
  }

  predicate SameOrigin(a: Parts, b: Parts) {
    a.port == b.port && IEquals(a.host, b.host)
  }

  predicate IsSensitive(name: string) {
    IEquals(name, "Host") || IEquals(name, "Authorization") || IEquals(name, "Proxy-Authorization") ||
      IEquals(name, "Cookie")
  }

  predicate IsEntity(name: string) {
    IEquals(name, "Content-Length") || IEquals(name, "Transfer-Encoding") || IEquals(name, "Content-Type")
  }

  predicate Survives(f: Field, crossOrigin: bool, dropBody: bool) {
    !(crossOrigin && IsSensitive(f.name)) && !(dropBody && IsEntity(f.name))
  }

  /** Those of the first `n` fields that survive. */
  function RedirectedUpTo(headers: Headers, n: nat, crossOrigin: bool, dropBody: bool): Headers
    requires n <= |headers|
  {
    if n == 0 then []
    else RedirectedUpTo(headers, n - 1, crossOrigin, dropBody) + if Survives(headers[n - 1], crossOrigin, dropBody)
      then [headers[n - 1]] else []
  }

  function Redirected(headers: Headers, crossOrigin: bool, dropBody: bool): Headers {
    RedirectedUpTo(headers, |headers|, crossOrigin, dropBody)
  }

  method RedirectedHeaders(source: Headers, crossOrigin: bool, dropBody: bool) returns (result: Headers)
    ensures result == Redirected(source, crossOrigin, dropBody)
  {
    hide IsSensitive, IsEntity;
    result := [];
    for i := 0 to |source|
      invariant result == RedirectedUpTo(source, i, crossOrigin, dropBody)
    {
      if crossOrigin && IsSensitive(source[i].name) {
        continue;
      }
      if dropBody && IsEntity(source[i].name) {
        continue;
      }
      result := result + [source[i]];
    }
  }

  // ---------- What one exchange and one run may do ----------

  /** `response` is what the bytes `w` say, possibly with the end of the stream after them. */
  predicate Answers(m: Method, lim: ResponseLimits, w: string, response: Parser.Response) {
    var e := Parser.Fed(m, lim, Parser.START, w);
    e.Ok? && if e.value.stage == Parser.Complete then response == e.value.response
             else Parser.Ended(lim, e.value).Ok? && response == Parser.Ended(lim, e.value).value.response
  }

  /** After `w` the connection is at a message boundary and may be kept. */
  predicate Retains(m: Method, lim: ResponseLimits, w: string, headers: Headers) {
    var e := Parser.Fed(m, lim, Parser.START, w);
    e.Ok? && Parser.IsReusable(e.value) && e.value.buffer == "" && !Parser.Closes(headers)
  }

  /** The record of an exchange that read exactly `w`. */
  function ExchangeOf(request: Request, lim: ResponseLimits, sent: string, w: string): Exchange {
    var e := Parser.Fed(request.verb, lim, Parser.START, w);
    Exchange(request, lim, sent, w, if e.Ok? then e.value else Parser.START)
  }

  /** Why an exchange that read `w` fails: the network, or what the parser says of `w`. */
  predicate Explains(m: Method, lim: ResponseLimits, w: string, e: ErrorCode) {
    var fed := Parser.Fed(m, lim, Parser.START, w);
    IsTransport(e) || fed == Err(e) || (fed.Ok? && Parser.Ended(lim, fed.value) == Err(e))
  }

  /** A request as it was made, the bytes sent and read for it, and what came of it. */
  datatype Hop = Hop(request: Request, sent: string, bytes: string, outcome: Result<Parser.Response>)

  /** The outcome is the serializer's error, or what the bytes read say. */
  predicate IsExchange(lim: ResponseLimits, hop: Hop) {
    match Serialized(hop.request)
    case Err(e) => hop.outcome == Err(e)
    case Ok(_) => if hop.outcome.Ok? then Answers(hop.request.verb, lim, hop.bytes, hop.outcome.value)
                  else Explains(hop.request.verb, lim, hop.bytes, hop.outcome.error)
  }

  /** The client's redirect and resource settings. */
  datatype Policy = Policy(follow: bool, max: nat, limits: ResponseLimits)

  /** The request a redirect response leads to, or the error the loop ends with. */
  function Next(request: Request, response: Parser.Response): Result<Request> {
    var location := Lookup(response.headers, 0, "Location").GetOr("");
    if location == "" then Err(MissingRedirectLocation)
    else
      var base :- ParseUrl(EffectiveUrl(request));
      var url :- Resolved(base, location);
      match ParseUrl(url)
      case Err(e) => Err(if e == UnsupportedScheme then UnsupportedRedirectScheme else e)
      case Ok(parts) =>
        var behavior := RedirectBehavior(response.status, request.verb);
        Ok(Request(behavior.newMethod, url,
                   Redirected(request.headers, !SameOrigin(base, parts), !behavior.preserveBody),
                   if behavior.preserveBody then request.body else "", []))
  }

  /** Whether the loop goes on after the hop numbered `i`. */
  predicate Continues(policy: Policy, i: nat, hop: Hop) {
    && hop.outcome.Ok? && policy.follow && IsRedirectStatus(hop.outcome.value.status)
    && i < policy.max && Next(hop.request, hop.outcome.value).Ok?
  }

  /** Each hop is an exchange, and the request the hop before it leads to. */
  predicate IsChain(policy: Policy, first: Request, hops: seq<Hop>) {
    && hops != [] && hops[0].request == first
    && (forall i :: 0 <= i < |hops| - 1 ==>
          Continues(policy, i, hops[i]) && Next(hops[i].request, hops[i].outcome.value) == Ok(hops[i + 1].request))
    && (forall i :: 0 <= i < |hops| ==> IsExchange(policy.limits, hops[i]))
  }

  /** What a run that stops after `hops` returns. */
  function Verdict(policy: Policy, hops: seq<Hop>): Result<Parser.Response>
    requires hops != []
  {
    var last := hops[|hops| - 1];
    if last.outcome.Err? || !policy.follow || !IsRedirectStatus(last.outcome.value.status) then last.outcome
    else if |hops| > policy.max then Err(RedirectLimitExceeded)
    else match Next(last.request, last.outcome.value)
         case Err(e) => Err(e)
         case Ok(_) => last.outcome
  }

  predicate IsRun(policy: Policy, first: Request, hops: seq<Hop>, r: Result<Parser.Response>) {
    IsChain(policy, first, hops) && !Continues(policy, |hops| - 1, hops[|hops| - 1]) && r == Verdict(policy, hops)
  }

  lemma ChainStep(policy: Policy, first: Request, hops: seq<Hop>, next: Hop)
    requires IsChain(policy, first, hops) && Continues(policy, |hops| - 1, hops[|hops| - 1])
    requires Next(hops[|hops| - 1].request, hops[|hops| - 1].outcome.value) == Ok(next.request)
    requires IsExchange(policy.limits, next)
    ensures IsChain(policy, first, hops + [next])
  {
    hide Continues, Next, IsExchange;
    var all := hops + [next];
    assert forall i :: 0 <= i < |hops| ==> all[i] == hops[i];
    assert all[|hops|] == next;
  }

  // ---------- What a call leaves in the books ----------

  function OwnedBy(token: int): set<int> { if token == INVALID then {} else {token} }

  /** The books after an exchange on `h` that sent `sent` and read `w`: the connection
   is kept with a record, or closed. */
  function Settled(b: Book, h: int, sent: string, w: string, kept: Option<Exchange>): Book
    requires h in b.sent && h in b.received && h in b.exchanges
  {
    var after := b.Sends(h, sent).Receives(h, w);
    if kept.Some? then after.Records(h, kept.value) else after.Closes(h)
  }

  /** The books once a connection to `peer` has been acquired, by a client that held `token`. */
  function Acquired(b: Book, token: int, reuse: bool, peer: Peer): Book {
    if reuse then b else b.Closes(token).Opens(peer)
  }

  ghost predicate SameOn(before: Book, after: Book, h: int) {
    && h in after.live
    && h in before.peers && h in after.peers && after.peers[h] == before.peers[h]
    && h in before.sent && h in after.sent && after.sent[h] == before.sent[h]
    && h in before.received && h in after.received && after.received[h] == before.received[h]
    && h in before.exchanges && h in after.exchanges && after.exchanges[h] == before.exchanges[h]
  }

  /**
   What every call keeps, whatever its outcome: the handle owned before was closed or is owned after,
   a handle owned after was owned before or is new, and every other live handle is as it was.
   */
  ghost predicate Conserved(before: Book, mine: int, after: Book, mine': int) {
    && before.next <= after.next && after.live == before.live - OwnedBy(mine) + OwnedBy(mine')
    && (mine' == INVALID || mine' == mine || mine' >= before.next)
    && forall h :: h in before.live && h != mine ==> SameOn(before, after, h)
  }

  lemma SameTransitive(a: Book, b: Book, c: Book, h: int)
    requires SameOn(a, b, h)
    ensures h in b.live && (SameOn(b, c, h) ==> SameOn(a, c, h))
  {
  }

  lemma ConservedTransitive(a: Book, mineA: int, b: Book, mineB: int, c: Book, mineC: int)
    requires a.Sound() && Conserved(a, mineA, b, mineB) && Conserved(b, mineB, c, mineC)
    ensures Conserved(a, mineA, c, mineC)
  {
    hide SameOn;
    forall h | h in a.live && h != mineA ensures SameOn(a, c, h) {
      assert SameOn(a, b, h);
      SameTransitive(a, b, c, h);
    }
    assert mineB != mineA ==> mineB !in a.live;
  }

  lemma NothingDone(b: Book, token: int)
    requires b.Sound() && (token == INVALID || token in b.live)
    ensures Conserved(b, token, b, token) && Conserved(b, token, b.Closes(token), INVALID)
  {
  }

  lemma AcquiredConserves(b: Book, token: int, peer: Peer)
    requires b.Sound() && (token == INVALID || token in b.live)
    ensures Conserved(b, token, b.Closes(token).Opens(peer), b.next) && b.Closes(token).Opens(peer).Sound() &&
            b.next in b.Closes(token).Opens(peer).live
  {
  }

  lemma SettleConserves(b: Book, h: int, sent: string, w: string, kept: Option<Exchange>)
    requires b.Sound() && h in b.live
    ensures Conserved(b, h, Settled(b, h, sent, w, kept), if kept.Some? then h else INVALID)
  {
  }

  /** Acquiring, exchanging and settling together conserve handles. */
  lemma SettledConserves(b: Book, token: int, reuse: bool, peer: Peer, sent: string, w: string, kept: Option<Exchange>)
    requires b.Sound() && (token == INVALID || token in b.live) && (reuse ==> token != INVALID)
    ensures var h := if reuse then token else b.next;
            && h in Acquired(b, token, reuse, peer).live && Acquired(b, token, reuse, peer).Sound()
            && Conserved(b, token, Settled(Acquired(b, token, reuse, peer), h, sent, w, kept),
                         if kept.Some? then h else INVALID)
  {
    hide Conserved, Settled, Book.Sound;
    var h, mid := if reuse then token else b.next, Acquired(b, token, reuse, peer);
    NothingDone(b, token);
    AcquiredConserves(b, token, peer);
    SettleConserves(mid, h, sent, w, kept);
    ConservedTransitive(b, token, mid, h, Settled(mid, h, sent, w, kept), if kept.Some? then h else INVALID);
  }

  lemma NewHandle(b: Book)
    requires b.Sound()
    ensures b.next !in b.live && b.next !in b.closed
  {
  }

  /** The books after a whole exchange by a client that held `token`. */
  ghost function Outcome(b: Book, token: int, reuse: bool, peer: Peer, sent: string, w: string,
                         record: Option<Exchange>): Book
    requires b.Sound() && (token == INVALID || token in b.live) && (reuse ==> token != INVALID)
  {
    NewHandle(b);
    Settled(Acquired(b, token, reuse, peer), if reuse then token else b.next, sent, w, record)
  }

  // ---------- One exchange, as a step of the whole state ----------

  datatype Kept = Kept(token: int, host: string, port: nat)

  /** The client's connection, if it has kept one, and everything that happened on every handle. */
  datatype World = World(kept: Option<Kept>, books: Book) {
    function Token(): int { if kept.Some? then kept.value.token else INVALID }

    /** Whether an exchange with this origin uses the kept connection. */
    predicate Reuses(p: Parts) { kept.Some? && kept.value.port == p.port && IEquals(kept.value.host, p.host) }

    /** A kept connection is live, leads to the origin it is kept for, and stands at a message boundary. */
    ghost predicate Sound() {
      && books.Sound()
      && (kept.Some? ==>
            && Token() in books.live && books.InSync(Token())
            && books.IsPeer(Token(), kept.value.host, kept.value.port))
    }
  }

  lemma NoHandleIsInvalid(w: World)
    requires w.Sound()
    ensures w.kept.Some? ==> w.Token() != INVALID
  {
  }

  function OriginOf(p: Parts): Peer { Peer(p.host, p.port) }

  ghost predicate Exchanged(lim: ResponseLimits, before: World, hop: Hop, wire: Wire, after: World)
    requires before.Sound()
  {
    var reuse := before.Reuses(wire.parts);
    NoHandleIsInvalid(before);
    var h := if reuse then before.Token() else before.books.next;
    var keep := hop.outcome.Ok? && Retains(hop.request.verb, lim, hop.bytes, hop.request.headers);
    && hop.sent <= wire.Bytes() && (hop.outcome.Ok? ==> hop.sent == wire.Bytes())
    && after.kept == (if keep then Some(Kept(h, wire.parts.host, wire.parts.port)) else None)
    && after.books == Outcome(before.books, before.Token(), reuse, OriginOf(wire.parts), hop.sent, hop.bytes,
                              if keep then Some(ExchangeOf(hop.request, lim, hop.sent, hop.bytes)) else None)
  }

  /**
   What one request does. If it does not serialize, nothing. If no connection is had, the kept one of another
   origin is closed. Otherwise `hop.sent` went out and `hop.bytes` came in on the kept connection of the same
   origin, or else on a new one to that origin; what went out is the request's head and body if the outcome is a
   response, and part of them from the front if not; and the connection is kept exactly when it may be.
   */
  ghost predicate Steps(lim: ResponseLimits, before: World, hop: Hop, after: World)
    requires before.Sound()
  {
    && IsExchange(lim, hop)
    && match Serialized(hop.request)
       case Err(_) => after == before
       case Ok(wire) =>
         || (hop.outcome.Err? && IsTransport(hop.outcome.error) && !before.Reuses(wire.parts)
             && after == World(None, before.books.Closes(before.Token())))
         || Exchanged(lim, before, hop, wire, after)
  }

  lemma NothingExchanged()
    ensures AllWhole([]) && AllSent([]) && BytesOf([]) == "" && SentOf([]) == ""
  {
  }

  lemma NewPeer(b: Book, host: string, port: nat)
    ensures var c := b.Opens(Peer(host, port)); c.InSync(b.next) && c.IsPeer(b.next, host, port)
  {
    hide BytesOf, SentOf, AllWhole, AllSent, IEquals;
    NothingExchanged();
    IEqualsReflexive(host);
  }

  lemma SamePeer(b: Book, h: int, kept: string, host: string, port: nat)
    requires b.IsPeer(h, kept, port) && IEquals(kept, host)
    ensures b.IsPeer(h, host, port)
  {
    hide IEquals;
    IEqualsTransitive(b.peers[h].host, kept, host);
  }

  /** An acquired connection is at a message boundary and leads to the origin it was acquired for. */
  lemma AcquiredInSync(w: World, p: Parts)
    requires w.Sound()
    ensures var reuse := w.Reuses(p);
            var b, h := Acquired(w.books, w.Token(), reuse, OriginOf(p)), if reuse then w.Token() else w.books.next;
            b.InSync(h) && b.IsPeer(h, p.host, p.port)
  {
    hide Book.InSync, Book.IsPeer, IEquals;
    if w.Reuses(p) {
      SamePeer(w.books, w.Token(), w.kept.value.host, p.host, p.port);
    } else {
      NewPeer(w.books.Closes(w.Token()), p.host, p.port);
    }
  }

  lemma ClosesKeeps(b: Book, h: int, other: int)
    ensures b.Closes(h).InSync(other) == b.InSync(other)
    ensures forall host, port :: b.Closes(h).IsPeer(other, host, port) == b.IsPeer(other, host, port)
  {
    hide BytesOf, SentOf, AllWhole, AllSent, IEquals;
  }

  lemma UsedPeer(b: Book, h: int, sent: string, w: string, host: string, port: nat)
    requires h in b.sent && h in b.received && b.IsPeer(h, host, port)
    ensures b.Sends(h, sent).Receives(h, w).IsPeer(h, host, port)
  {
    hide IEquals;
  }

  lemma PeerStays(b: Book, h: int, sent: string, w: string, record: Option<Exchange>, p: Parts)
    requires h in b.sent && h in b.received && h in b.exchanges && b.IsPeer(h, p.host, p.port)
    ensures Settled(b, h, sent, w, record).IsPeer(h, p.host, p.port)
  {
    hide IEquals;
  }

  lemma SettledSound(b: Book, h: int, sent: string, w: string, record: Option<Exchange>)
    requires b.Sound() && h in b.live
    ensures Settled(b, h, sent, w, record).Sound() && (record.Some? ==> h in Settled(b, h, sent, w, record).live)
  {
  }

  lemma SettledRecord(b: Book, h: int, sent: string, w: string, e: Exchange)
    requires h in b.sent && h in b.received && h in b.exchanges
    ensures Settled(b, h, sent, w, Some(e)) == b.Sends(h, sent).Receives(h, w).Records(h, e)
  {
  }

  lemma Boundary(m: Method, lim: ResponseLimits, w: string, headers: Headers)
    ensures Retains(m, lim, w, headers) == (Retains(m, lim, w, []) && !Parser.Closes(headers))
  {
    hide Parser.Fed;
  }

  lemma MayBeKept(m: Method, lim: ResponseLimits, w: string, headers: Headers)
    requires Retains(m, lim, w, headers)
    ensures Retains(m, lim, w, [])
  {
    Boundary(m, lim, w, headers);
  }

  /** A connection that may be kept has read exactly a whole message. */
  lemma WholeExchange(request: Request, lim: ResponseLimits, sent: string, w: string)
    requires Retains(request.verb, lim, w, [])
    ensures var e := ExchangeOf(request, lim, sent, w);
            e.IsWhole() && e.request == request && e.sent == sent && e.bytes == w
  {
    hide Parser.Fed;
  }

  /** A connection in sync is in sync again once a whole exchange has been recorded. */
  lemma RecordInSync(b: Book, h: int, request: Request, lim: ResponseLimits, sent: string, w: string)
    requires b.InSync(h) && Retains(request.verb, lim, w, [])
    requires Serialized(request).Ok? && sent == Serialized(request).value.Bytes()
    ensures b.Sends(h, sent).Receives(h, w).Records(h, ExchangeOf(request, lim, sent, w)).InSync(h)
  {
    hide Retains, ExchangeOf, Exchange.IsWhole, Serialized;
    var e := ExchangeOf(request, lim, sent, w);
    WholeExchange(request, lim, sent, w);
    var all := b.exchanges[h] + [e];
    assert all[..|all| - 1] == b.exchanges[h];
  }

  /** Every step keeps the whole invariant: handles conserved, and a kept connection at a message boundary. */
  lemma StepKeeps(lim: ResponseLimits, before: World, hop: Hop, after: World)
    requires before.Sound() && Steps(lim, before, hop, after)
    ensures after.Sound() && Conserved(before.books, before.Token(), after.books, after.Token())
  {
    hide Serialized, IsExchange, Retains, ExchangeOf, Conserved, Book.InSync, Book.IsPeer, Parser.Fed, IEquals, Settled,
         Acquired, Wire.Bytes;
    NothingDone(before.books, before.Token());
    ClosesSound(before.books, before.Token());
    NoHandleIsInvalid(before);
    if Serialized(hop.request).Ok? && Exchanged(lim, before, hop, Serialized(hop.request).value, after) {
      var wire := Serialized(hop.request).value;
      var reuse, peer := before.Reuses(wire.parts), OriginOf(wire.parts);
      var h := if reuse then before.Token() else before.books.next;
      var b := Acquired(before.books, before.Token(), reuse, peer);
      var keep := hop.outcome.Ok? && Retains(hop.request.verb, lim, hop.bytes, hop.request.headers);
      var record := if keep then Some(ExchangeOf(hop.request, lim, hop.sent, hop.bytes)) else None;
      SettledConserves(before.books, before.Token(), reuse, peer, hop.sent, hop.bytes, record);
      SettledSound(b, h, hop.sent, hop.bytes, record);
      if keep {
        AcquiredInSync(before, wire.parts);
        MayBeKept(hop.request.verb, lim, hop.bytes, hop.request.headers);
        RecordInSync(b, h, hop.request, lim, hop.sent, hop.bytes);
        SettledRecord(b, h, hop.sent, hop.bytes, record.value);
        PeerStays(b, h, hop.sent, hop.bytes, record, wire.parts);
      }
    }
  }

  /** The hops one after the other lead from the first world to the last. */
  ghost predicate IsHistory(lim: ResponseLimits, first: World, hops: seq<Hop>, worlds: seq<World>, last: World) {
    && |worlds| == |hops| + 1 && worlds[0] == first && worlds[|hops|] == last
    && forall i :: 0 <= i < |hops| ==> worlds[i].Sound() && Steps(lim, worlds[i], hops[i], worlds[i + 1])
  }

  lemma HistoryStart(lim: ResponseLimits, w: World)
    ensures IsHistory(lim, w, [], [w], w)
  {
  }

  lemma HistoryStep(lim: ResponseLimits, first: World, hops: seq<Hop>, worlds: seq<World>, here: World, hop: Hop,
                    there: World)
    requires IsHistory(lim, first, hops, worlds, here) && here.Sound() && Steps(lim, here, hop, there)
    ensures IsHistory(lim, first, hops + [hop], worlds + [there], there)
    ensures IsExchange(lim, hop)
  {
    hide World.Sound, Serialized, IsExchange, Exchanged;
    var hs, ws := hops + [hop], worlds + [there];
    forall i | 0 <= i < |hs| ensures ws[i].Sound() && Steps(lim, ws[i], hs[i], ws[i + 1]) {
      if i < |hops| {
        assert ws[i] == worlds[i] && ws[i + 1] == worlds[i + 1] && hs[i] == hops[i];
      }
    }
  }

  // ---------- The client ----------

  lemma HostRepresented(u: Url, p: Parts)
    requires u.Represents(p)
    ensures u.InBounds() && u.Host() == p.host && u.port == p.port
  {
  }

  /** What the bytes read so far mean, from the parser's state. */
  lemma MeansSoFar(m: Method, lim: ResponseLimits, w: string, st: Parser.State)
    requires Parser.Fed(m, lim, Parser.START, w) == Ok(st)
    ensures st.stage == Parser.Complete ==> Answers(m, lim, w, st.response)
    ensures st.stage != Parser.Complete ==>
            !Retains(m, lim, w, []) &&
              if Parser.Ended(lim, st).Ok? then Answers(m, lim, w, Parser.Ended(lim, st).value.response)
                                       else Explains(m, lim, w, Parser.Ended(lim, st).error)
    ensures Retains(m, lim, w, []) ==
            (st.stage == Parser.Complete && !st.closeRequested && !st.closeDelimited && st.buffer == "")
  {
    hide Parser.Fed, Parser.Ended;
  }

  lemma FailsSoFar(m: Method, lim: ResponseLimits, w: string)
    requires Parser.Fed(m, lim, Parser.START, w).Err?
    ensures !Retains(m, lim, w, []) && Explains(m, lim, w, Parser.Fed(m, lim, Parser.START, w).error)
  {
    hide Parser.Fed;
  }

  lemma TransportExplains(m: Method, lim: ResponseLimits, w: string, e: ErrorCode)
    requires IsTransport(e)
    ensures Explains(m, lim, w, e)
  {
    hide Parser.Fed;
  }

  lemma NoFragmentNoParams(r: Request)
    requires Lacks(r.url, '#') && r.params == []
    ensures EffectiveUrl(r) == r.url
  {
    UntilIs(r.url, 0, "#", |r.url|);
    assert r.url[..|r.url|] == r.url && r.url + "" == r.url;
  }

  lemma FirstUrlParses(r: Request)
    requires Serialized(r).Ok?
    ensures ParseUrl(EffectiveUrl(r)).Ok?
  {
    hide EffectiveUrl, ParseUrl, Problem, HeadLines, LinesThen;
    SerializerProofs.AppendCommutes(r);
  }

  lemma ChainStart(policy: Policy, first: Hop)
    requires IsExchange(policy.limits, first)
    ensures IsChain(policy, first.request, [first])
    ensures first.outcome.Err? || !policy.follow || !IsRedirectStatus(first.outcome.value.status) ==>
            !Continues(policy, 0, first) && Verdict(policy, [first]) == first.outcome
  {
    hide IsExchange, Next;
  }

  lemma ExchangeSerializes(lim: ResponseLimits, hop: Hop)
    requires IsExchange(lim, hop) && hop.outcome.Ok?
    ensures Serialized(hop.request).Ok?
  {
    hide Serialized;
  }

  lemma HopGoesOn(policy: Policy, hops: seq<Hop>)
    requires hops != [] && policy.follow && |hops| - 1 < policy.max
    requires var last := hops[|hops| - 1];
             last.outcome.Ok? && IsRedirectStatus(last.outcome.value.status) &&
               Next(last.request, last.outcome.value).Ok?
    ensures Continues(policy, |hops| - 1, hops[|hops| - 1])
  {
    hide Next;
  }

  /** One more hop, to the request the last one leads to. */
  lemma HopAdded(policy: Policy, request: Request, hops: seq<Hop>, worlds: seq<World>, first: World, here: World,
                 hop: Hop, there: World)
    requires IsChain(policy, request, hops) && IsHistory(policy.limits, first, hops, worlds, here)
    requires here.Sound() && Steps(policy.limits, here, hop, there) && policy.follow && |hops| - 1 < policy.max
    requires var last := hops[|hops| - 1];
             last.outcome.Ok? && IsRedirectStatus(last.outcome.value.status) &&
               Next(last.request, last.outcome.value) == Ok(hop.request)
    ensures IsChain(policy, request, hops + [hop])
    ensures IsHistory(policy.limits, first, hops + [hop], worlds + [there], there)
  {
    hide Next, IsExchange, World.Sound, Steps, IsHistory, Continues, IsRedirectStatus;
    HopGoesOn(policy, hops);
    HistoryStep(policy.limits, first, hops, worlds, here, hop, there);
    ChainStep(policy, request, hops, hop);
  }

  lemma ChainEnds(policy: Policy, hops: seq<Hop>)
    requires hops != [] && policy.follow && |hops| - 1 <= policy.max
    ensures var last := hops[|hops| - 1];
            if last.outcome.Err? || !IsRedirectStatus(last.outcome.value.status)
            then !Continues(policy, |hops| - 1, last) && Verdict(policy, hops) == last.outcome
            else if |hops| - 1 == policy.max
            then !Continues(policy, |hops| - 1, last) && Verdict(policy, hops) == Err(RedirectLimitExceeded)
            else Next(last.request, last.outcome.value).Err? ==>
                 !Continues(policy, |hops| - 1, last) &&
                   Verdict(policy, hops) == Err(Next(last.request, last.outcome.value).error)
  {
    hide Next;
  }

  class Client {
    const net: Network
    var reusableSocketToken: int
    var hasReusable: bool
    var reusableHost: string
    var reusablePort: nat
    var followRedirects: bool
    var maxRedirects: nat
    var limits: ResponseLimits

    /** The handle this client owns between calls, or INVALID. */
    function Token(): int
      reads this
    {
      if hasReusable then reusableSocketToken else INVALID
    }

    function Settings(): Policy
      reads this
    {
      Policy(followRedirects, maxRedirects, limits)
    }

    ghost function State(): World
      reads this, net
    {
      World(if hasReusable then Some(Kept(reusableSocketToken, reusableHost, reusablePort)) else None, net.books)
    }

    ghost predicate Valid()
      reads this, net
    {
      net.Valid() && State().Sound()
    }

    constructor (net: Network, followRedirects: bool, maxRedirects: nat, limits: ResponseLimits)
      requires net.Valid()
      ensures Valid() && Token() == INVALID && this.net == net &&
              Settings() == Policy(followRedirects, maxRedirects, limits)
    {
      this.net := net;
      reusableSocketToken, hasReusable, reusableHost, reusablePort := 0, false, "", 0;
      this.followRedirects, this.maxRedirects, this.limits := followRedirects, maxRedirects, limits;
    }

    lemma BooksAreSound()
      requires Valid()
      ensures net.books.Sound()
    {
    }

    lemma ValidIsSound()
      requires Valid()
      ensures State().Sound()
    {
    }

    method CloseReusableConnection()
      requires Valid()
      modifies this`reusableSocketToken, this`hasReusable, this`reusableHost, this`reusablePort, net`books
      ensures Valid() && !hasReusable && net.books == old(net.books).Closes(old(Token()))
    {
      if hasReusable {
        var socket := new NativeSocket(net, reusableSocketToken);
        socket.Close();
      }
      reusableSocketToken, hasReusable, reusableHost, reusablePort := 0, false, "", 0;
    }

    /** The destructor. */
    method Destroy()
      requires Valid()
      modifies this`reusableSocketToken, this`hasReusable, this`reusableHost, this`reusablePort, net`books
      ensures Valid() && Token() == INVALID && net.books == old(net.books).Closes(old(Token()))
    {
      CloseReusableConnection();
    }

    /** The move constructor: what the other client owned is owned here, and no longer there. */
    constructor MoveFrom(other: Client)
      requires other.Valid()
      modifies other
      ensures net == other.net && Valid() && other.Valid()
      ensures Token() == old(other.Token()) && other.Token() == INVALID
      ensures Settings() == other.Settings() == old(other.Settings())
      ensures reusableHost == old(other.reusableHost) && reusablePort == old(other.reusablePort)
    {
      net := other.net;
      reusableSocketToken, hasReusable, reusableHost, reusablePort :=
        other.reusableSocketToken, other.hasReusable, other.reusableHost, other.reusablePort;
      followRedirects, maxRedirects, limits := other.followRedirects, other.maxRedirects, other.limits;
      new;
      other.reusableSocketToken, other.hasReusable, other.reusablePort := 0, false, 0;
      other.reusableHost := *;
    }

    /** Move assignment: the connection held before is closed, the other's is taken over. */
    method MoveAssign(other: Client)
      requires Valid()
      requires other.Valid()
      requires other.net == net
      requires this != other && hasReusable ==> Token() != other.Token()
      modifies this, other, net`books
      ensures Valid() && other.Valid()
      ensures if this == other then Token() == old(Token()) && net.books == old(net.books) &&
              Settings() == old(Settings())
              else && Token() == old(other.Token()) && other.Token() == INVALID
                   && Settings() == other.Settings() == old(other.Settings())
                   && reusableHost == old(other.reusableHost) && reusablePort == old(other.reusablePort)
                   && net.books == old(net.books).Closes(old(Token()))
    {
      hide Book.InSync, Book.IsPeer;
      if this == other {
        return;
      }
      ClosesKeeps(net.books, Token(), other.Token());
      CloseReusableConnection();
      reusableSocketToken, hasReusable, reusableHost, reusablePort :=
        other.reusableSocketToken, other.hasReusable, other.reusableHost, other.reusablePort;
      other.reusableSocketToken, other.hasReusable, other.reusablePort := 0, false, 0;
      other.reusableHost := *;
      followRedirects, maxRedirects, limits := other.followRedirects, other.maxRedirects, other.limits;
    }

    // ---------- One exchange ----------

    /** One turn of the reading loop: `halt` is what the exchange ends with, or None when more is needed. */
    method ReadOnce(connection: TcpConnection, parser: Parser.ResponseParser, ghost w: string)
      returns (halt: Option<Result<Parser.Response>>, ghost bytes: string)
      requires connection.socket.net == net && connection.socket.Valid() && connection.socket.handle != INVALID
      requires parser.Valid() && parser.stage != Parser.Complete
      requires Parser.Fed(parser.requestMethod, parser.limits, Parser.START, w) == Ok(parser.Fields())
      modifies connection.socket, net`books, net`supply, parser, parser.chunkedDecoder
      ensures connection.socket.Valid() && parser.Valid()
      ensures UsedUp(connection, old(connection.socket.handle),
              old(net.books).Receives(old(connection.socket.handle), bytes))
      ensures halt.None? ==>
              && connection.socket.handle != INVALID && net.supply < old(net.supply)
              && Parser.Fed(parser.requestMethod, parser.limits, Parser.START, w + bytes) == Ok(parser.Fields())
      ensures halt.Some? ==>
              && !Retains(parser.requestMethod, parser.limits, w + bytes, [])
              && (halt.value.Ok? ==> Answers(parser.requestMethod, parser.limits, w + bytes, halt.value.value))
              && (halt.value.Err? ==> Explains(parser.requestMethod, parser.limits, w + bytes, halt.value.error))
    {
      hide Parser.Fed, Parser.Ended, Answers, Retains, Explains;
      MeansSoFar(parser.requestMethod, parser.limits, w, parser.Fields());
      bytes := "";
      assert w + "" == w;
      ReceivesTwice(net.books, connection.socket.handle, "", "");
      var read := connection.ReadSome(READ_BUFFER);
      if read.Err? {
        if read.error == ConnectionClosed {
          var eof := parser.FinishEof();
          return Some(if eof.Err? then Err(eof.error) else Ok(parser.response)), bytes;
        }
        TransportExplains(parser.requestMethod, parser.limits, w, read.error);
        return Some(Err(read.error)), bytes;
      }
      bytes := read.value;
      ParserProofs.FeedSplit(parser.requestMethod, parser.limits, Parser.START, w, bytes);
      var fed := parser.Feed(read.value);
      if fed.Err? {
        FailsSoFar(parser.requestMethod, parser.limits, w + bytes);
        return Some(Err(fed.error)), bytes;
      }
      halt := None;
    }

    /** The connection is as it was and the books are `b`, or it was closed on top of that. */
    ghost predicate UsedUp(connection: TcpConnection, h: int, b: Book)
      reads connection, connection.socket, net
    {
      && (connection.socket.handle == INVALID || connection.socket.handle == h)
      && net.books == if connection.socket.handle == INVALID then b.Closes(h) else b
    }

    /** Feeds the parser until a response is complete or the exchange fails. */
    method ReadResponse(connection: TcpConnection, verb: Method)
      returns (r: Result<Parser.Response>, boundary: bool, ghost w: string)
      requires connection.socket.net == net && connection.socket.Valid() && connection.socket.handle != INVALID
      modifies connection.socket, net`books, net`supply
      ensures connection.socket.Valid()
      ensures UsedUp(connection, old(connection.socket.handle),
              old(net.books).Receives(old(connection.socket.handle), w))
      ensures if r.Ok? then Answers(verb, limits, w, r.value) else Explains(verb, limits, w, r.error)
      ensures boundary == Retains(verb, limits, w, []) && (boundary ==> r.Ok? && connection.socket.handle != INVALID)
    {
      hide Parser.Fed, Answers, Retains, Explains;
      var parser := new Parser.ResponseParser(verb, limits);
      ghost var h, before := connection.socket.handle, net.books;
      w := "";
      ReceivesTwice(before, h, "", "");
      ParserProofs.StartTakesNothing(verb, limits);
      while parser.stage != Parser.Complete
        invariant parser.Valid() && parser.requestMethod == verb && parser.limits == limits && fresh(parser) &&
                  fresh(parser.chunkedDecoder)
        invariant connection.socket.Valid() && connection.socket.handle == h && net.books == before.Receives(h, w)
        invariant Parser.Fed(verb, limits, Parser.START, w) == Ok(parser.Fields())
        decreases net.supply
      {
        var halt, bytes := ReadOnce(connection, parser, w);
        ReceivesTwice(before, h, w, bytes);
        w := w + bytes;
        if halt.Some? {
          return halt.value, false, w;
        }
      }
      MeansSoFar(verb, limits, w, parser.Fields());
      boundary := connection.Connected() && parser.ConnectionReusable() && parser.buffer == "";
      r := Ok(parser.response);
    }

    /** Whether an exchange with this origin uses the kept connection. */
    predicate Reuses(host: string, port: nat)
      reads this
    {
      hasReusable && reusablePort == port && IEquals(reusableHost, host)
    }

    /** The kept connection if it has this origin; a new one, the kept one being closed first, if not. */
    method Acquire(host: string, port: nat) returns (failure: Option<ErrorCode>, connection: TcpConnection)
      requires Valid()
      modifies this`reusableSocketToken, this`hasReusable, this`reusableHost, this`reusablePort, net
      ensures connection.socket.net == net && connection.socket.Valid() && fresh(connection.socket)
      ensures Valid() && !hasReusable
      ensures match failure
              case Some(e) => IsTransport(e) && !old(Reuses(host, port)) &&
                net.books == old(net.books).Closes(old(Token()))
              case None =>
                && net.books == Acquired(old(net.books), old(Token()), old(Reuses(host, port)), Peer(host, port))
                && connection.socket.handle == (if old(Reuses(host, port)) then old(Token()) else old(net.books.next))
                && net.books.InSync(connection.socket.handle) && net.books.IsPeer(connection.socket.handle, host, port)
    {
      hide Book.InSync, Book.IsPeer, Book.Sound, IEquals;
      BooksAreSound();
      var socket := new NativeSocket(net, INVALID);
      connection := new TcpConnection(socket);
      if hasReusable && reusablePort == port && IEquals(reusableHost, host) {
        var adopted := new NativeSocket(net, reusableSocketToken);
        socket.MoveAssign(adopted);
        SamePeer(net.books, reusableSocketToken, reusableHost, host, port);
        reusableSocketToken, hasReusable, reusableHost, reusablePort := 0, false, "", 0;
        return None, connection;
      }
      CloseReusableConnection();
      var handle := net.Connect(host, port);
      if handle.Err? {
        return Some(handle.error), connection;
      }
      var connected := new NativeSocket(net, handle.value);
      socket.MoveAssign(connected);
      NewPeer(old(net.books).Closes(old(Token())), host, port);
      failure := None;
    }

    method SendRequest(connection: TcpConnection, wire: SerializedRequest)
      returns (failure: Option<ErrorCode>, ghost sent: string)
      requires connection.socket.net == net && connection.socket.Valid() && connection.socket.handle != INVALID
      modifies connection.socket, net`books
      ensures connection.socket.Valid()
      ensures UsedUp(connection, old(connection.socket.handle),
              old(net.books).Sends(old(connection.socket.handle), sent))
      ensures if failure.None? then sent == wire.head + wire.body && connection.socket.handle != INVALID
              else sent <= wire.head + wire.body && IsTransport(failure.value) && connection.socket.handle == INVALID
    {
      ghost var h, before := connection.socket.handle, net.books;
      failure, sent := connection.WriteAll(wire.head);
      if failure.None? && wire.body != "" {
        ghost var more: string;
        failure, more := connection.WriteAll(wire.body);
        SendsTwice(before, h, sent, more);
        sent := sent + more;
      } else if failure.None? {
        assert wire.head + wire.body == wire.head;
      }
    }

    /** Hands the connection's handle to the client, at the boundary after exchange `e`. */
    method Keep(connection: TcpConnection, host: string, port: nat, ghost e: Exchange)
      requires connection.socket.net == net && connection.socket.Valid() && connection.socket.handle != INVALID
      requires net.books.Records(connection.socket.handle, e).InSync(connection.socket.handle)
      requires net.books.IsPeer(connection.socket.handle, host, port)
      modifies this`reusableSocketToken, this`hasReusable, this`reusableHost, this`reusablePort, connection.socket,
               net`books
      ensures Valid() && Token() == old(connection.socket.handle) && hasReusable && reusableHost == host &&
              reusablePort == port
      ensures connection.socket.handle == INVALID &&
              net.books == old(net.books).Records(old(connection.socket.handle), e)
    {
      hide BytesOf, SentOf, AllWhole;
      net.Record(connection.socket.handle, e);
      reusableSocketToken := connection.socket.Release();
      hasReusable, reusableHost, reusablePort := true, host, port;
    }

    /**
     The exchange itself, on a connection at a message boundary: `sent` went out, `w` came in, and the
     connection was then kept or closed.
     */
    method Converse(connection: TcpConnection, wire: SerializedRequest, request: Request)
      returns (r: Result<Parser.Response>, ghost sent: string, ghost w: string)
      requires Valid() && !hasReusable && wire.url.InBounds()
      requires connection.socket.net == net && connection.socket.Valid() && connection.socket.handle != INVALID
      requires net.books.InSync(connection.socket.handle)
      requires net.books.IsPeer(connection.socket.handle, wire.url.Host(), wire.url.port)
      requires Serialized(request).Ok? && Serialized(request).value.Bytes() == wire.head + wire.body
      modifies this`reusableSocketToken, this`hasReusable, this`reusableHost, this`reusablePort, connection.socket,
               net`books, net`supply
      ensures Valid()
      ensures if r.Ok? then Answers(request.verb, limits, w, r.value) && sent == wire.head + wire.body
              else Explains(request.verb, limits, w, r.error) && sent <= wire.head + wire.body
      ensures hasReusable == (r.Ok? && Retains(request.verb, limits, w, request.headers))
      ensures hasReusable ==>
              reusableSocketToken == old(connection.socket.handle) && reusableHost == wire.url.Host() &&
                reusablePort == wire.url.port
      ensures net.books == Settled(old(net.books), old(connection.socket.handle), sent, w,
                                   if hasReusable then Some(ExchangeOf(request, limits, sent, w)) else None)
    {
      hide Parser.Fed, Answers, Explains, Url.Host, Retains, Parser.Closes, ExchangeOf, Serialized, Book.InSync,
           Book.IsPeer;
      ghost var h, before := connection.socket.handle, net.books;
      w := "";
      var failure: Option<ErrorCode>;
      failure, sent := SendRequest(connection, wire);
      ReceivesTwice(before.Sends(h, sent), h, "", "");
      if failure.Some? {
        TransportExplains(request.verb, limits, w, failure.value);
        return Err(failure.value), sent, w;
      }
      var response, boundary, bytes := ReadResponse(connection, request.verb);
      w := bytes;
      Boundary(request.verb, limits, w, request.headers);
      var close := RequestWantsConnectionClose(request.headers);
      if boundary && !close {
        RecordInSync(before, h, request, limits, sent, w);
        UsedPeer(before, h, sent, w, wire.url.Host(), wire.url.port);
        Keep(connection, wire.url.Host(), wire.url.port, ExchangeOf(request, limits, sent, w));
      }
      connection.socket.Close();
      r := response;
    }

    /** One request on the wire: exactly a step of the whole state. */
    method ExecuteOnce(request: Request) returns (r: Result<Parser.Response>, ghost hop: Hop)
      requires Valid()
      modifies this`reusableSocketToken, this`hasReusable, this`reusableHost, this`reusablePort, net
      ensures Conserves()
      ensures hop.request == request && hop.outcome == r && Steps(limits, old(State()), hop, State())
    {
      hide Serialized, Parser.Fed, Answers, Explains, Retains, Url.Represents, ExchangeOf, IEquals, Conserved, Acquired,
           Settled, Book.InSync, Book.IsPeer, Book.Sound, World.Sound, Client.Valid;
      ghost var before := State();
      ValidIsSound();
      BooksAreSound();
      NoHandleIsInvalid(before);
      var serialized := SerializeRequest(request);
      if serialized.Err? {
        r := Err(serialized.error);
        hop := Hop(request, "", "", r);
        StepKeeps(limits, before, hop, State());
        return;
      }
      var wire := serialized.value;
      HostRepresented(wire.url, Serialized(request).value.parts);
      var failure, connection := Acquire(wire.url.Host(), wire.url.port);
      if failure.Some? {
        TransportExplains(request.verb, limits, "", failure.value);
        r := Err(failure.value);
        hop := Hop(request, "", "", r);
        StepKeeps(limits, before, hop, State());
        return;
      }
      NewHandle(before.books);
      ghost var sent, w;
      r, sent, w := Converse(connection, wire, request);
      hop := Hop(request, sent, w, r);
      StepKeeps(limits, before, hop, State());
    }

    /** What every call leaves behind, whatever its outcome. */
    twostate predicate Conserves()
      reads this, net
    {
      Valid() && Conserved(old(net.books), old(Token()), net.books, Token()) && Settings() == old(Settings())
    }

    // ---------- Redirects ----------

    /** One redirect: where the current request leads after `response`. */
    method Follow(currentUrl: string, verb: Method, headers: Headers, body: string, response: Parser.Response,
                  ghost current: Request)
      returns (r: Result<Request>)
      requires currentUrl == EffectiveUrl(current) && verb == current.verb && headers == current.headers &&
               body == current.body
      requires ParseUrl(currentUrl).Ok?
      ensures r == Next(current, response)
      ensures r.Ok? ==> ParseUrl(r.value.url).Ok? && EffectiveUrl(r.value) == r.value.url
    {
      hide ParseUrl, Resolved, RedirectedUpTo, EffectiveUrl, IEquals, Named, Url.Represents;
      var location := FieldValue(response.headers, "Location");
      if location.None? {
        return Err(MissingRedirectLocation);
      }
      if location.value == "" {
        return Err(MissingRedirectLocation);
      }
      var base := Parse(currentUrl);
      if base.Err? {
        assert false;
      }
      var nextUrl := ResolveRedirectLocation(base.value, location.value, ParseUrl(currentUrl).value);
      if nextUrl.Err? {
        return Err(nextUrl.error);
      }
      RedirectProofs.ResolvedParses(ParseUrl(currentUrl).value, location.value);
      var next := Parse(nextUrl.value);
      if next.Err? {
        assert false;
      }
      HostRepresented(base.value, ParseUrl(currentUrl).value);
      HostRepresented(next.value, ParseUrl(nextUrl.value).value);
      var behavior := RedirectBehavior(response.status, verb);
      var crossOrigin := !(base.value.port == next.value.port && IEquals(base.value.Host(), next.value.Host()));
      var dropBody := !behavior.preserveBody;
      var nextHeaders := RedirectedHeaders(headers, crossOrigin, dropBody);
      var nextBody := if behavior.preserveBody then body else "";
      r := Ok(Request(behavior.newMethod, nextUrl.value, nextHeaders, nextBody, []));
      NoFragmentNoParams(r.value);
    }

    /** The redirect loop. */
    method Run(request: Request) returns (r: Result<Parser.Response>, ghost hops: seq<Hop>, ghost worlds: seq<World>)
      requires Valid()
      modifies this`reusableSocketToken, this`hasReusable, this`reusableHost, this`reusablePort, net
      ensures Conserves()
      ensures IsRun(Settings(), request, hops, r)
      ensures IsHistory(limits, old(State()), hops, worlds, State())
    {
      hide Client.Valid, Client.State, Client.Token;
      hide IsExchange, Next, ParseUrl, EffectiveUrl, Serialized, IsChain, Continues, Verdict, Conserved, Book.InSync,
           Book.Sound, Steps, World.Sound, IsHistory, IsRedirectStatus;
      ghost var start, mine, policy := net.books, Token(), Settings();
      ghost var begin := State();
      BooksAreSound();
      worlds := [begin];
      HistoryStart(limits, begin);
      ValidIsSound();
      ghost var hop: Hop;
      var once: Result<Parser.Response>;
      once, hop := ExecuteOnce(request);
      HistoryStep(limits, begin, [], worlds, begin, hop, State());
      hops, worlds := [hop], worlds + [State()];
      assert [] + [hop] == hops;
      ChainStart(policy, hop);
      if once.Err? {
        return once, hops, worlds;
      }
      var response := once.value;
      if !followRedirects || !IsRedirectStatus(response.status) {
        return once, hops, worlds;
      }
      ExchangeSerializes(limits, hops[0]);
      FirstUrlParses(request);
      var currentUrl := EffectiveRequestUrl(request);
      var verb, headers, body := request.verb, request.headers, request.body;
      ghost var current := request;
      var redirectsFollowed := 0;
      while IsRedirectStatus(response.status)
        invariant Valid() && Conserved(start, mine, net.books, Token())
        invariant Settings() == policy && policy.follow
        invariant currentUrl == EffectiveUrl(current) && verb == current.verb && headers == current.headers &&
                  body == current.body
        invariant ParseUrl(currentUrl).Ok?
        invariant redirectsFollowed == |hops| - 1 <= maxRedirects
        invariant IsHistory(limits, begin, hops, worlds, State())
        invariant IsChain(policy, request, hops) && hops[|hops| - 1].request == current &&
                  hops[|hops| - 1].outcome == Ok(response)
        decreases maxRedirects - redirectsFollowed
      {
        if redirectsFollowed >= maxRedirects {
          ChainEnds(policy, hops);
          return Err(RedirectLimitExceeded), hops, worlds;
        }
        var redirected := Follow(currentUrl, verb, headers, body, response, current);
        if redirected.Err? {
          ChainEnds(policy, hops);
          return Err(redirected.error), hops, worlds;
        }
        currentUrl, verb, headers, body := redirected.value.url, redirected.value.verb, redirected.value.headers,
          redirected.value.body;
        redirectsFollowed := redirectsFollowed + 1;
        ghost var before, owned, world := net.books, Token(), State();
        ValidIsSound();
        var result: Result<Parser.Response>;
        result, hop := ExecuteOnce(redirected.value);
        ConservedTransitive(start, mine, before, owned, net.books, Token());
        HopAdded(policy, request, hops, worlds, begin, world, hop, State());
        hops, worlds := hops + [hop], worlds + [State()];
        if result.Err? {
          ChainEnds(policy, hops);
          return result, hops, worlds;
        }
        response := result.value;
        current := redirected.value;
      }
      ChainEnds(policy, hops);
      r := Ok(response);
    }
  }
}
