/** Where the client's bytes go: only to connections opened to the origin of the request they belong to, so that a
 sensitive field of the first request of a redirect chain only goes to the first origin. */
module PeerProofs {
  import opened Results
  import opened Text
  import opened Limits
  import opened Heads
  import opened Urls
  import opened Serializer
  import opened SerializerProofs
  import opened Sockets
  import opened Clients
  import opened ClientProofs

  // ---------- One exchange ----------

  /** `hop` is a request that may go out on `x`: what was sent is its printed form, from the front, and `x` leads to
   its origin. */
  predicate GoesTo(b: Book, x: int, hop: Hop) {
    && Serialized(hop.request).Ok?
    && var wire := Serialized(hop.request).value;
       hop.sent <= wire.Bytes() && b.IsPeer(x, wire.parts.host, wire.parts.port)
  }

  function SentOn(b: Book, x: int): string { if x in b.sent then b.sent[x] else "" }

  function ReadOn(b: Book, x: int): string { if x in b.received then b.received[x] else "" }

  ghost predicate PeersStay(before: Book, after: Book) {
    forall x :: x in before.peers ==> x in after.peers && after.peers[x] == before.peers[x]
  }

  /** Only `used` was written to and read from, and nothing happened at all if there is no such handle. */
  ghost predicate OnlyUses(before: Book, after: Book, hop: Hop, used: Option<int>) {
    match used
    case None => after.sent == before.sent && after.received == before.received
    case Some(x) =>
      && after.sent == before.sent[x := SentOn(before, x) + hop.sent]
      && after.received == before.received[x := ReadOn(before, x) + hop.bytes]
  }

  lemma LiveIsKnown(b: Book, h: int)
    requires b.Sound() && h in b.live
    ensures h in b.sent && h in b.received && h in b.exchanges
  {
  }

  lemma SettledUses(b: Book, h: int, hop: Hop, record: Option<Exchange>)
    requires h in b.sent && h in b.received && h in b.exchanges
    ensures OnlyUses(b, Settled(b, h, hop.sent, hop.bytes, record), hop, Some(h))
    ensures Settled(b, h, hop.sent, hop.bytes, record).peers == b.peers
  {
  }

  lemma AcquiredUses(b: Book, token: int, reuse: bool, peer: Peer, after: Book, hop: Hop)
    requires b.Sound() && (reuse ==> token in b.live)
    requires var h := if reuse then token else b.next; OnlyUses(Acquired(b, token, reuse, peer), after, hop, Some(h))
    requires after.peers == Acquired(b, token, reuse, peer).peers
    ensures var h := if reuse then token else b.next; OnlyUses(b, after, hop, Some(h)) && PeersStay(b, after)
  {
    var h := if reuse then token else b.next;
    assert b.sent[h := ""][h := "" + hop.sent] == b.sent[h := "" + hop.sent];
    assert b.received[h := ""][h := "" + hop.bytes] == b.received[h := "" + hop.bytes];
  }

  lemma ExchangeUses(b: Book, token: int, reuse: bool, peer: Peer, hop: Hop, record: Option<Exchange>)
    requires b.Sound() && (token == INVALID || token in b.live) && (reuse ==> token != INVALID)
    ensures var h, after := if reuse then token
            else b.next, Outcome(b, token, reuse, peer, hop.sent, hop.bytes, record);
            && OnlyUses(b, after, hop, Some(h)) && PeersStay(b, after)
            && after.peers == Acquired(b, token, reuse, peer).peers
  {
    hide Book.Sound, OnlyUses, PeersStay, Settled, Conserved;
    var h := if reuse then token else b.next;
    var after := Outcome(b, token, reuse, peer, hop.sent, hop.bytes, record);
    SettledConserves(b, token, reuse, peer, hop.sent, hop.bytes, record);
    LiveIsKnown(Acquired(b, token, reuse, peer), h);
    SettledUses(Acquired(b, token, reuse, peer), h, hop, record);
    AcquiredUses(b, token, reuse, peer, after, hop);
  }

  lemma PeerKept(a: Book, b: Book, x: int, p: Parts)
    requires a.IsPeer(x, p.host, p.port) && b.peers == a.peers
    ensures b.IsPeer(x, p.host, p.port)
  {
  }

  /** An exchange writes and reads on one connection at most, and that leads to the origin of its request. */
  lemma StepUses(lim: ResponseLimits, before: World, hop: Hop, after: World) returns (used: Option<int>)
    requires before.Sound() && Steps(lim, before, hop, after)
    ensures OnlyUses(before.books, after.books, hop, used) && PeersStay(before.books, after.books)
    ensures used.Some? ==> GoesTo(after.books, used.value, hop)
  {
    hide Serialized, IsExchange, Retains, ExchangeOf, Book.InSync, Book.IsPeer, IEquals, Outcome, Acquired, Wire.Bytes;
    used := None;
    NoHandleIsInvalid(before);
    if Serialized(hop.request).Ok? && Exchanged(lim, before, hop, Serialized(hop.request).value, after) {
      var wire := Serialized(hop.request).value;
      var reuse, peer := before.Reuses(wire.parts), OriginOf(wire.parts);
      var keep := hop.outcome.Ok? && Retains(hop.request.verb, lim, hop.bytes, hop.request.headers);
      var record := if keep then Some(ExchangeOf(hop.request, lim, hop.sent, hop.bytes)) else None;
      used := Some(if reuse then before.Token() else before.books.next);
      ExchangeUses(before.books, before.Token(), reuse, peer, hop, record);
      AcquiredInSync(before, wire.parts);
      PeerKept(Acquired(before.books, before.Token(), reuse, peer), after.books, used.value, wire.parts);
    }
  }

  // ---------- All exchanges ----------

  function SentBy(hops: seq<Hop>): string {
    if hops == [] then "" else SentBy(hops[..|hops| - 1]) + hops[|hops| - 1].sent
  }

  function ReadBy(hops: seq<Hop>): string {
    if hops == [] then "" else ReadBy(hops[..|hops| - 1]) + hops[|hops| - 1].bytes
  }

  /** All that was ever sent and read on each handle, request by request: each went to the origin of that handle. */
  ghost predicate IsLedger(b: Book, ledger: map<int, seq<Hop>>) {
    && ledger.Keys == b.sent.Keys == b.received.Keys
    && (forall x :: x in ledger ==> b.sent[x] == SentBy(ledger[x]) && b.received[x] == ReadBy(ledger[x]))
    && (forall x, i :: x in ledger && 0 <= i < |ledger[x]| ==> GoesTo(b, x, ledger[x][i]))
  }

  lemma GoesToStays(before: Book, after: Book, x: int, hop: Hop)
    requires PeersStay(before, after) && GoesTo(before, x, hop)
    ensures GoesTo(after, x, hop)
  {
    hide Serialized, IEquals;
  }

  lemma OneMore(done: seq<Hop>, hop: Hop)
    ensures SentBy(done + [hop]) == SentBy(done) + hop.sent && ReadBy(done + [hop]) == ReadBy(done) + hop.bytes
  {
    assert (done + [hop])[..|done|] == done;
  }

  lemma NothingDoneYet()
    ensures SentBy([]) == "" && ReadBy([]) == ""
  {
  }

  lemma LedgerStep(lim: ResponseLimits, before: World, hop: Hop, after: World, ledger: map<int, seq<Hop>>)
    returns (ledger': map<int, seq<Hop>>)
    requires before.Sound() && Steps(lim, before, hop, after) && IsLedger(before.books, ledger)
    ensures IsLedger(after.books, ledger')
  {
    hide World.Sound, Steps, GoesTo, SentBy, ReadBy, PeersStay;
    var used := StepUses(lim, before, hop, after);
    var b := after.books;
    forall x, i | x in ledger && 0 <= i < |ledger[x]| ensures GoesTo(b, x, ledger[x][i]) {
      GoesToStays(before.books, b, x, ledger[x][i]);
    }
    ledger' := ledger;
    if used.Some? {
      var x := used.value;
      var done := if x in ledger then ledger[x] else [];
      OneMore(done, hop);
      NothingDoneYet();
      ledger' := ledger[x := done + [hop]];
    }
  }

  lemma HistoryFront(lim: ResponseLimits, first: World, hops: seq<Hop>, worlds: seq<World>, last: World)
    requires IsHistory(lim, first, hops, worlds, last) && hops != []
    ensures var n := |hops| - 1;
            && IsHistory(lim, first, hops[..n], worlds[..n + 1], worlds[n])
            && worlds[n].Sound() && Steps(lim, worlds[n], hops[n], last)
  {
    hide World.Sound, Steps;
  }

  /** A run of the client keeps the ledger. */
  lemma {:induction false} LedgerHistory(lim: ResponseLimits, first: World, hops: seq<Hop>, worlds: seq<World>,
                                         last: World, ledger: map<int, seq<Hop>>)
    returns (ledger': map<int, seq<Hop>>)
    requires IsHistory(lim, first, hops, worlds, last) && IsLedger(first.books, ledger)
    ensures IsLedger(last.books, ledger')
    decreases |hops|
  {
    hide World.Sound, Steps, IsLedger;
    ledger' := ledger;
    if hops != [] {
      var n := |hops| - 1;
      HistoryFront(lim, first, hops, worlds, last);
      ledger' := LedgerHistory(lim, first, hops[..n], worlds[..n + 1], worlds[n], ledger);
      ledger' := LedgerStep(lim, worlds[n], hops[n], last, ledger');
    }
  }

  lemma ClosedLedger(b: Book, h: int, ledger: map<int, seq<Hop>>)
    requires IsLedger(b, ledger)
    ensures IsLedger(b.Closes(h), ledger)
  {
    hide Serialized, IEquals, SentBy, ReadBy;
    forall x, i | x in ledger && 0 <= i < |ledger[x]| ensures GoesTo(b.Closes(h), x, ledger[x][i]) {
      GoesToStays(b, b.Closes(h), x, ledger[x][i]);
    }
  }

  // ---------- One chain ----------

  /** Something was sent on `x`. */
  ghost predicate Writes(before: Book, after: Book, x: int) {
    x in after.sent && after.sent[x] != SentOn(before, x)
  }

  lemma {:induction false} HistoryPeers(lim: ResponseLimits, first: World, hops: seq<Hop>, worlds: seq<World>,
                                        last: World, i: nat)
    requires IsHistory(lim, first, hops, worlds, last) && i <= |hops|
    ensures PeersStay(worlds[i].books, last.books)
    decreases |hops|
  {
    hide World.Sound, Steps;
    if i < |hops| {
      var n := |hops| - 1;
      HistoryFront(lim, first, hops, worlds, last);
      HistoryPeers(lim, first, hops[..n], worlds[..n + 1], worlds[n], i);
      var used := StepUses(lim, worlds[n], hops[n], last);
    }
  }

  /** A request that serializes goes where its effective URL points. */
  lemma PlaceOfHop(r: Request)
    requires Serialized(r).Ok?
    ensures ParseUrl(EffectiveUrl(r)).Ok?
    ensures var p, q := Serialized(r).value.parts, ParseUrl(EffectiveUrl(r)).value; p.host == q.host && p.port == q.port
  {
    hide EffectiveUrl, ParseUrl, Problem, HeadLines, LinesThen;
    AppendCommutes(r);
  }

  /** Hop `i` of a run writes only on connections opened to its own origin. */
  lemma HopGoesHome(lim: ResponseLimits, hops: seq<Hop>, begin: World, worlds: seq<World>, end: World, i: nat, x: int)
    requires IsHistory(lim, begin, hops, worlds, end) && i < |hops|
    requires Writes(worlds[i].books, worlds[i + 1].books, x)
    ensures Place(hops, i).Ok?
    ensures var p := Place(hops, i).value; end.books.IsPeer(x, p.host, p.port)
  {
    hide World.Sound, Steps, Serialized, EffectiveUrl, ParseUrl, IEquals;
    var used := StepUses(lim, worlds[i], hops[i], worlds[i + 1]);
    assert used == Some(x);
    HistoryPeers(lim, begin, hops, worlds, end, i + 1);
    GoesToStays(worlds[i + 1].books, end.books, x, hops[i]);
    PlaceOfHop(hops[i].request);
  }

  /**
   Whatever redirects a run follows: a hop whose headers hold a Host, Authorization, Proxy-Authorization or Cookie
   field of the first request writes only on connections opened to the first request's origin.
   */
  lemma SensitiveStays(policy: Policy, first: Request, hops: seq<Hop>, begin: World, worlds: seq<World>, end: World,
                       i: nat, x: int)
    requires IsChain(policy, first, hops) && IsHistory(policy.limits, begin, hops, worlds, end) && i < |hops|
    requires Writes(worlds[i].books, worlds[i + 1].books, x)
    requires exists f :: f in hops[i].request.headers && IsSensitive(f.name)
    ensures Place(hops, 0).Ok?
    ensures var p := Place(hops, 0).value; end.books.IsPeer(x, p.host, p.port)
  {
    hide IsChain, IsHistory, Writes, IsSensitive, Place, IEquals;
    HopGoesHome(policy.limits, hops, begin, worlds, end, i, x);
    if i > 0 {
      var at := ChainCarries(policy, first, hops, i);
      var p, q := Place(hops, 0).value, Place(hops, i).value;
      IEqualsSymmetric(p.host, q.host);
      IEqualsTransitive(end.books.peers[x].host, q.host, p.host);
    }
  }
}
