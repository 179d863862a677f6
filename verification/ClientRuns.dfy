/** Any number of clients on one network, in any order of requests, moves and destructions: every handle
 ever opened has exactly one owner or was closed exactly once, and every byte sent belongs to a request for the
 origin its connection was opened to. */
module ClientRuns {
  import opened Serializer
  import opened Sockets
  import opened Limits
  import opened Clients
  import opened PeerProofs

  // ---------- Ownership, on values ----------

  /** The live handles are exactly the owned ones, each owned once. */
  predicate Owners(live: set<int>, tokens: seq<int>) {
    && (forall i, j :: 0 <= i < j < |tokens| && tokens[i] != INVALID ==> tokens[i] != tokens[j])
    && (forall i :: 0 <= i < |tokens| && tokens[i] != INVALID ==> tokens[i] in live)
    && (forall h :: h in live ==> h in tokens)
  }

  /** One owner's call conserves ownership. */
  lemma OwnersStep(a: Book, b: Book, tokens: seq<int>, k: nat, token: int)
    requires a.Sound() && Owners(a.live, tokens) && k < |tokens| && Conserved(a, tokens[k], b, token)
    ensures Owners(b.live, tokens[k := token])
    ensures forall i :: 0 <= i < |tokens| && i != k && tokens[i] != INVALID ==> SameOn(a, b, tokens[i])
  {
    hide SameOn;
    var after := tokens[k := token];
    forall h | h in b.live ensures h in after {
      if h == token {
        assert after[k] == h;
      } else {
        var i :| 0 <= i < |tokens| && tokens[i] == h;
        assert after[i] == h;
      }
    }
    forall i, j | 0 <= i < j < |after| && after[i] != INVALID ensures after[i] != after[j] {
      assert tokens[i] != INVALID ==> tokens[i] in a.live;
      assert tokens[j] != INVALID ==> tokens[j] in a.live;
      if i == k || j == k {
        assert token != tokens[k] && token != INVALID ==> token !in a.live;
      }
    }
    forall i | 0 <= i < |after| && after[i] != INVALID ensures after[i] in b.live {
      if i != k {
        assert tokens[i] in a.live && (i < k || k < i);
      }
    }
  }

  lemma SameStaysInSync(a: Book, b: Book, h: int)
    requires SameOn(a, b, h) && a.InSync(h)
    ensures h in b.live && b.InSync(h)
    ensures forall host, port :: a.IsPeer(h, host, port) ==> b.IsPeer(h, host, port)
  {
  }

  /** A new owner of nothing. */
  lemma OwnersMore(live: set<int>, tokens: seq<int>)
    requires Owners(live, tokens)
    ensures Owners(live, tokens + [INVALID])
  {
  }

  /** Ownership moves from one owner to another that has nothing. */
  lemma OwnersMove(live: set<int>, tokens: seq<int>, from: nat, to: nat)
    requires Owners(live, tokens) && from < |tokens| && to < |tokens| && from != to && tokens[to] == INVALID &&
             INVALID !in live
    ensures Owners(live, tokens[to := tokens[from]][from := INVALID])
  {
    var after := tokens[to := tokens[from]][from := INVALID];
    assert after[to] == tokens[from];
    forall h | h in live ensures h in after {
      var i :| 0 <= i < |tokens| && tokens[i] == h;
      assert after[if i == from then to else i] == h;
    }
  }

  /** An owner of nothing may go. */
  lemma OwnersLess(live: set<int>, tokens: seq<int>, k: nat)
    requires Owners(live, tokens) && k < |tokens| && tokens[k] == INVALID && INVALID !in live
    ensures Owners(live, tokens[..k] + tokens[k + 1..])
  {
    var after := tokens[..k] + tokens[k + 1..];
    assert forall i :: 0 <= i < |after| ==> after[i] == tokens[if i < k then i else i + 1];
    forall h | h in live ensures h in after {
      var i :| 0 <= i < |tokens| && tokens[i] == h;
      assert after[if i < k then i else i - 1] == h;
    }
  }

  // ---------- Clients ----------

  ghost function Tokens(clients: seq<Client>): seq<int>
    reads clients
  {
    seq(|clients|, i requires 0 <= i < |clients| reads clients => clients[i].Token())
  }

  lemma NobodyOwns(live: set<int>)
    requires Owners(live, [])
    ensures live == {}
  {
    assert forall h :: h in live ==> h in [];
  }

  lemma NoneIsInvalid(b: Book)
    requires b.Sound()
    ensures INVALID !in b.live
  {
  }

  lemma TokensDiffer(live: set<int>, tokens: seq<int>, i: nat, j: nat)
    requires Owners(live, tokens) && i < |tokens| && j < |tokens|
    ensures i != j && tokens[i] != INVALID ==> tokens[i] != tokens[j]
  {
  }

  lemma OwnersBound(live: set<int>, tokens: seq<int>, k: nat)
    requires Owners(live, tokens) && k < |tokens|
    ensures tokens[k] == INVALID || tokens[k] in live
  {
  }

  lemma TokenIsHandle(b: Book, h: int)
    requires b.Sound() && h in b.live
    ensures h != INVALID
  {
  }

  lemma KeptIsHandle(c: Client)
    requires c.Valid()
    ensures c.hasReusable ==> c.Token() != INVALID
  {
  }

  /** The clients of one network, and nobody else, own its live handles. */
  class Pool {
    const net: Network
    var clients: seq<Client>
    ghost var ledger: map<int, seq<Hop>>

    ghost predicate Valid()
      reads this, net, clients
    {
      && IsLedger(net.books, ledger)
      && net.Valid() && Owners(net.books.live, Tokens(clients))
      && (forall i :: 0 <= i < |clients| ==> clients[i].net == net && clients[i].Valid())
      && (forall i, j :: 0 <= i < j < |clients| ==> clients[i] != clients[j])
    }

    constructor (net: Network, ghost ledger: map<int, seq<Hop>>)
      requires net.Valid() && net.books.live == {} && IsLedger(net.books, ledger)
      ensures Valid() && this.net == net && clients == [] && this.ledger == ledger
    {
      this.net, this.clients, this.ledger := net, [], ledger;
    }

    /** A call of client `k` that conserves handles leaves every other client as valid as it was. */
    twostate lemma CallKeeps(k: nat)
      requires old(Valid()) && clients == old(clients) && k < |clients| && clients[k].Valid()
      requires Conserved(old(net.books), old(clients[k].Token()), net.books, clients[k].Token())
      requires forall i :: 0 <= i < |clients| && i != k ==> unchanged(clients[i])
      requires IsLedger(net.books, ledger)
      ensures Valid()
    {
      hide Conserved, SameOn, Book.InSync, Book.IsPeer, Owners, IsLedger;
      ghost var before, after := old(Tokens(clients)), Tokens(clients);
      OwnersStep(old(net.books), net.books, before, k, clients[k].Token());
      assert after == before[k := clients[k].Token()];
      forall i | 0 <= i < |clients| ensures clients[i].net == net && clients[i].Valid() {
        if i != k && clients[i].hasReusable {
          assert before[i] == clients[i].reusableSocketToken;
          TokenIsHandle(old(net.books), clients[i].reusableSocketToken);
          SameStaysInSync(old(net.books), net.books, clients[i].reusableSocketToken);
        }
      }
    }

    method Create(follow: bool, max: nat, limits: ResponseLimits)
      requires Valid()
      modifies this`clients
      ensures Valid() && |clients| == |old(clients)| + 1 && clients[..|old(clients)|] == old(clients)
      ensures ledger == old(ledger)
    {
      hide Owners, Book.InSync, Book.IsPeer, Book.Sound, IsLedger;
      var c := new Client(net, follow, max, limits);
      OwnersMore(net.books.live, Tokens(clients));
      assert Tokens(clients + [c]) == Tokens(clients) + [INVALID];
      clients := clients + [c];
    }

    /** A request by client `k`: the ledger grows by the hops it takes. */
    method Request(k: nat, request: Serializer.Request)
      requires Valid() && k < |clients|
      modifies this`ledger, clients, net
      ensures Valid() && clients == old(clients)
    {
      hide Owners, Book.InSync, Book.IsPeer, Book.Sound, IsRun, IsHistory, Conserved, IsLedger;
      ghost var lim, before := clients[k].limits, clients[k].State();
      var r, hops, worlds := clients[k].Run(request);
      ledger := LedgerHistory(lim, before, hops, worlds, clients[k].State(), ledger);
      CallKeeps(k);
    }

    /** A client move-constructed from client `k`. */
    method MoveConstruct(k: nat)
      requires Valid() && k < |clients|
      modifies this`clients, clients
      ensures Valid() && |clients| == |old(clients)| + 1 && clients[..|old(clients)|] == old(clients)
    {
      hide Owners, Book.InSync, Book.IsPeer, Book.Sound, IsLedger;
      ghost var tokens, n := Tokens(clients), |clients|;
      NoneIsInvalid(net.books);
      var c := new Client.MoveFrom(clients[k]);
      OwnersMore(net.books.live, tokens);
      OwnersMove(net.books.live, tokens + [INVALID], k, n);
      clients := clients + [c];
      assert Tokens(clients) == (tokens + [INVALID])[n := tokens[k]][k := INVALID];
    }

    /** Client `to` is move-assigned from client `from`. */
    method MoveAssign(to: nat, from: nat)
      requires Valid() && to < |clients| && from < |clients|
      modifies clients, net
      ensures Valid() && clients == old(clients)
    {
      hide Owners, Book.InSync, Book.IsPeer, Conserved, SameOn, IsLedger, Book.Sound, World.Sound;
      ghost var tokens, before := Tokens(clients), net.books;
      NoneIsInvalid(before);
      TokensDiffer(before.live, tokens, to, from);
      OwnersBound(before.live, tokens, to);
      NothingDone(before, tokens[to]);
      OwnersStep(before, before.Closes(tokens[to]), tokens, to, INVALID);
      ClosedLedger(before, tokens[to], ledger);
      var target, source := clients[to], clients[from];
      KeptIsHandle(target);
      target.MoveAssign(source);
      if to == from {
        assert Tokens(clients) == tokens;
      } else {
        OwnersMove(net.books.live, tokens[to := INVALID], from, to);
        assert Tokens(clients) == tokens[to := INVALID][to := tokens[from]][from := INVALID];
        OthersStay(before, tokens, to, from);
      }
    }

    twostate lemma OthersStay(new before: Book, new tokens: seq<int>, new to: nat, from: nat)
      requires old(Valid()) && clients == old(clients) && to < |clients| && from < |clients|
      requires before == old(net.books) && tokens == old(Tokens(clients)) && net.Valid()
      requires clients[to].Valid() && clients[from].Valid()
      requires forall i :: 0 <= i < |clients| && i != to && i != from ==> unchanged(clients[i])
      requires forall i :: 0 <= i < |tokens| && i != to && tokens[i] != INVALID ==> SameOn(before, net.books, tokens[i])
      ensures forall i :: 0 <= i < |clients| ==> clients[i].net == net && clients[i].Valid()
    {
      hide Owners, Book.InSync, Book.IsPeer, SameOn;
      forall i | 0 <= i < |clients| ensures clients[i].net == net && clients[i].Valid() {
        if i != to && i != from && clients[i].hasReusable {
          assert tokens[i] == clients[i].reusableSocketToken;
          TokenIsHandle(before, clients[i].reusableSocketToken);
          SameStaysInSync(before, net.books, clients[i].reusableSocketToken);
        }
      }
    }

    /** Client `k`, which owns nothing, leaves the pool. */
    method Drop(k: nat)
      requires Valid() && k < |clients| && clients[k].Token() == INVALID
      modifies this`clients
      ensures Valid() && clients == old(clients[..k] + clients[k + 1..])
    {
      hide Owners, Book.InSync, Book.IsPeer, IsLedger, Client.Valid, Client.Token;
      NoneIsInvalid(net.books);
      OwnersLess(net.books.live, Tokens(clients), k);
      ghost var tokens := Tokens(clients);
      clients := clients[..k] + clients[k + 1..];
      assert Tokens(clients) == tokens[..k] + tokens[k + 1..];
    }

    /** Client `k` is destroyed. */
    method Destroy(k: nat)
      requires Valid() && k < |clients|
      modifies this`clients, clients, net
      ensures Valid() && clients == old(clients[..k] + clients[k + 1..])
    {
      hide Owners, Book.InSync, Book.IsPeer, Conserved, IsLedger;
      ghost var before, token := net.books, clients[k].Token();
      ClosedLedger(before, token, ledger);
      OwnersBound(before.live, Tokens(clients), k);
      NothingDone(before, token);
      clients[k].Destroy();
      CallKeeps(k);
      Drop(k);
    }

    /** Destroys whatever is left: then nothing is live, and every handle ever opened was closed exactly once. */
    method DestroyAll()
      requires Valid()
      modifies this`clients, clients, net
      ensures Valid() && clients == [] && net.books.live == {}
      ensures forall h :: 0 <= h < net.books.next <==> h in net.books.closed
    {
      hide Book.InSync, Book.IsPeer, Owners, IsLedger;
      while clients != []
        invariant Valid() && clients == old(clients)[|old(clients)| - |clients|..]
        decreases |clients|
      {
        Destroy(0);
      }
      assert Tokens(clients) == [];
      NobodyOwns(net.books.live);
    }
  }

  lemma EmptyLedger(b: Book)
    requires b.sent == map[] && b.received == map[]
    ensures IsLedger(b, map[])
  {
  }

  /** Any run at all: `steps` calls of any kind, then the end. */
  method AnyRun(supply: nat, steps: nat) returns (net: Network, ghost ledger: map<int, seq<Hop>>)
    ensures net.Valid() && net.books.live == {} && IsLedger(net.books, ledger)
    ensures forall h :: 0 <= h < net.books.next <==> h in net.books.closed
  {
    hide Owners, Book.InSync, Book.IsPeer, Book.Sound, IsLedger;
    net := new Network(supply);
    EmptyLedger(net.books);
    var pool := new Pool(net, map[]);
    for step := 0 to steps
      invariant fresh(net) && fresh(pool) && pool.net == net && pool.Valid() && fresh(pool.clients)
    {
      var i: int, j: int := *, *;
      if i < 0 || i >= |pool.clients| || j < 0 || j >= |pool.clients| {
        var policy: Policy := *;
        pool.Create(policy.follow, policy.max, policy.limits);
      } else if * {
        var request: Serializer.Request := *;
        pool.Request(i, request);
      } else if * {
        pool.MoveConstruct(i);
      } else if * {
        pool.MoveAssign(i, j);
      } else {
        pool.Destroy(i);
      }
    }
    pool.DestroyAll();
    ledger := pool.ledger;
  }
}
