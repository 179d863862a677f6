/** Sockets (src/platform/native_socket.hpp, src/net/tcp_connection.cpp): the network as an oracle that
 opens, yields bytes, fails and closes as it likes, and the objects that own handles to it. */
module Sockets {
  import opened Results
  import opened Text
  import opened Limits
  import opened Heads
  import opened Serializer
  import Parser
  import ParserProofs

  const INVALID := -1

  /** The errors that come from the network rather than from what was said on it. */
  predicate IsTransport(e: ErrorCode) {
    || e == ResolveFailed || e == SocketCreateFailed || e == ConnectFailed || e == ConnectTimeout
    || e == WriteFailed || e == WriteTimeout || e == ReadFailed || e == ReadTimeout || e == ConnectionClosed
  }

  // ---------- The books: everything that happened on every handle ----------

  /** Where a connection leads: what was resolved and connected to. */
  datatype Peer = Peer(host: string, port: nat)

  /**
   One successful exchange on a connection that was kept: the request, what was sent for it, what was read, and what
   that parsed to.
   */
  datatype Exchange = Exchange(request: Request, limits: ResponseLimits, sent: string, bytes: string,
      state: Parser.State)
  {
    /** What was read is one whole response. */
    predicate IsWhole() { ParserProofs.IsWhole(request.verb, limits, bytes, state) }

    /** What was sent is the request, printed. */
    predicate IsSent() { Serialized(request).Ok? && sent == Serialized(request).value.Bytes() }
  }

  function SentOf(exchanges: seq<Exchange>): string {
    if exchanges == [] then "" else SentOf(exchanges[..|exchanges| - 1]) + exchanges[|exchanges| - 1].sent
  }

  function BytesOf(exchanges: seq<Exchange>): string {
    if exchanges == [] then "" else BytesOf(exchanges[..|exchanges| - 1]) + exchanges[|exchanges| - 1].bytes
  }

  predicate AllWhole(exchanges: seq<Exchange>) {
    forall i :: 0 <= i < |exchanges| ==> exchanges[i].IsWhole()
  }

  predicate AllSent(exchanges: seq<Exchange>) {
    forall i :: 0 <= i < |exchanges| ==> exchanges[i].IsSent()
  }

  /** Handles are numbered in the order they are opened; a handle is live until it is closed, once. */
  datatype Book = Book(
    next: nat,
    live: set<int>,
    closed: set<int>,
    peers: map<int, Peer>,
    sent: map<int, string>,
    received: map<int, string>,
    exchanges: map<int, seq<Exchange>>)
  {
    ghost predicate Sound() {
      && live !! closed && (forall h :: h in live || h in closed <==> 0 <= h < next)
      && peers.Keys == live + closed && sent.Keys == live + closed
      && received.Keys == live + closed && exchanges.Keys == live + closed
    }

    /** `h` was connected to this origin. */
    predicate IsPeer(h: int, host: string, port: nat) {
      h in peers && peers[h].port == port && IEquals(peers[h].host, host)
    }

    /** What was sent and read on `h` so far is whole requests and whole responses, one pair per successful exchange. */
    predicate InSync(h: int) {
      && h in sent && h in received && h in exchanges && AllWhole(exchanges[h]) && AllSent(exchanges[h])
      && sent[h] == SentOf(exchanges[h]) && received[h] == BytesOf(exchanges[h])
    }

    function Opens(peer: Peer): Book {
      Book(next + 1, live + {next}, closed, peers[next := peer], sent[next := ""], received[next := ""],
        exchanges[next := []])
    }

    function Closes(h: int): Book {
      if h == INVALID then this else this.(live := live - {h}, closed := closed + {h})
    }

    function Sends(h: int, data: string): Book
      requires h in sent
    {
      this.(sent := sent[h := sent[h] + data])
    }

    function Receives(h: int, data: string): Book
      requires h in received
    {
      this.(received := received[h := received[h] + data])
    }

    function Records(h: int, e: Exchange): Book
      requires h in exchanges
    {
      this.(exchanges := exchanges[h := exchanges[h] + [e]])
    }
  }

  lemma OpensSound(b: Book, peer: Peer)
    requires b.Sound()
    ensures b.Opens(peer).Sound() && b.next in b.Opens(peer).live
  {
  }

  lemma ClosesSound(b: Book, h: int)
    requires b.Sound() && (h == INVALID || h in b.live)
    ensures b.Closes(h).Sound()
  {
  }

  lemma ReceivesTwice(b: Book, h: int, x: string, y: string)
    requires h in b.received
    ensures b.Receives(h, x).Receives(h, y) == b.Receives(h, x + y)
    ensures b.Receives(h, "") == b
  {
    assert b.received[h] + "" == b.received[h];
    Regroup(b.received[h], x, y);
    assert b.received[h := b.received[h] + x][h := b.received[h] + (x + y)] == b.received[h := b.received[h] + (x + y)];
  }

  lemma SendsTwice(b: Book, h: int, x: string, y: string)
    requires h in b.sent
    ensures b.Sends(h, x).Sends(h, y) == b.Sends(h, x + y)
    ensures b.Sends(h, "") == b
  {
    assert b.sent[h] + "" == b.sent[h];
    Regroup(b.sent[h], x, y);
    assert b.sent[h := b.sent[h] + x][h := b.sent[h] + (x + y)] == b.sent[h := b.sent[h] + (x + y)];
  }

  // ---------- The oracle ----------

  /**
   The operating system's side. `supply` bounds the bytes the peers will still send, so that every
   run is finite, and is otherwise arbitrary.
   */
  class Network {
    var next: nat
    var supply: nat
    ghost var books: Book

    ghost predicate Valid()
      reads this
    {
      books.Sound() && books.next == next
    }

    constructor (supply: nat)
      ensures Valid() && books == Book(0, {}, {}, map[], map[], map[], map[])
    {
      next, this.supply := 0, supply;
      books := Book(0, {}, {}, map[], map[], map[], map[]);
    }

    /** Resolving and connecting, to the given host and port. */
    method Connect(host: string, port: nat) returns (r: Result<int>)
      requires Valid()
      modifies this
      ensures Valid() && supply == old(supply)
      ensures match r
              case Err(e) => IsTransport(e) && books == old(books)
              case Ok(h) => h == old(books.next) && books == old(books).Opens(Peer(host, port))
    {
      hide Book.Sound;
      OpensSound(books, Peer(host, port));
      var cause: ErrorCode := *;
      if cause == ResolveFailed || cause == SocketCreateFailed || cause == ConnectFailed || cause == ConnectTimeout {
        return Err(cause);
      }
      r := Ok(next);
      books, next := books.Opens(Peer(host, port)), next + 1;
    }

    method CloseHandle(h: int)
      requires Valid() && h in books.live
      modifies this`books
      ensures Valid() && books == old(books).Closes(h)
    {
      hide Book.Sound;
      ClosesSound(books, h);
      books := books.Closes(h);
    }

    /** One receive on a live handle: some bytes, end of stream, or a failure. */
    method Receive(h: int, capacity: nat) returns (r: Result<string>)
      requires Valid() && h in books.live && 0 < capacity
      modifies this`books, this`supply
      ensures Valid()
      ensures match r
              case Err(e) => IsTransport(e) && books == old(books) && supply == old(supply)
              case Ok(bytes) =>
                && 0 < |bytes| <= capacity && supply < old(supply)
                && books == old(books).Receives(h, bytes)
    {
      var cause: ErrorCode := *;
      if cause == ConnectionClosed || cause == ReadTimeout || cause == ReadFailed {
        return Err(cause);
      }
      var bytes: string := *;
      if 0 < |bytes| <= capacity && |bytes| <= supply {
        supply := supply - |bytes|;
        books := books.Receives(h, bytes);
        return Ok(bytes);
      }
      return Err(ConnectionClosed);
    }

    /** Sending all of `data`, or a failure after `part`, which is what it begins with. */
    method Send(h: int, data: string) returns (failure: Option<ErrorCode>, ghost part: string)
      requires Valid() && h in books.live
      modifies this`books
      ensures Valid() && books == old(books).Sends(h, part)
      ensures part <= data && if failure.None? then part == data else IsTransport(failure.value)
    {
      var cause: ErrorCode := *;
      if cause == WriteFailed || cause == WriteTimeout || cause == ConnectionClosed {
        ghost var n: int := *;
        part := if 0 <= n < |data| then data[..n] else data;
        failure := Some(cause);
      } else {
        part, failure := data, None;
      }
      books := books.Sends(h, part);
    }

    /** Bookkeeping: the exchange that ends here. */
    ghost method Record(h: int, e: Exchange)
      requires Valid() && h in books.live
      modifies this`books
      ensures Valid() && books == old(books).Records(h, e)
    {
      books := books.Records(h, e);
    }
  }

  // ---------- Owners ----------

  class NativeSocket {
    const net: Network
    var handle: int

    /** The socket owns a live handle or none. */
    ghost predicate Valid()
      reads this, net
    {
      net.Valid() && (handle == INVALID || handle in net.books.live)
    }

    constructor (net: Network, handle: int)
      ensures this.net == net && this.handle == handle
    {
      this.net, this.handle := net, handle;
    }

    method Release() returns (h: int)
      modifies this
      ensures h == old(handle) && handle == INVALID
    {
      h := handle;
      handle := INVALID;
    }

    /** Closes the handle held before, unless it is the replacement. */
    method Reset(replacement: int)
      requires Valid()
      modifies this, net`books
      ensures handle == replacement && net.Valid()
      ensures net.books == if old(handle) == replacement then old(net.books) else old(net.books).Closes(old(handle))
    {
      if handle == replacement {
        return;
      }
      if handle != INVALID {
        net.CloseHandle(handle);
      }
      handle := replacement;
    }

    /** Close, and what the destructor does. */
    method Close()
      requires Valid()
      modifies this, net`books
      ensures handle == INVALID && net.Valid() && net.books == old(net.books).Closes(old(handle))
    {
      Reset(INVALID);
    }

    /** Takes the other socket's handle; the one held before is closed, none is lost or shared. */
    method MoveAssign(other: NativeSocket)
      requires Valid() && other.Valid() && other.net == net
      requires this != other && handle != INVALID ==> handle != other.handle
      modifies this, other, net`books
      ensures Valid() && other.Valid()
      ensures if this == other then handle == old(handle) && net.books == old(net.books)
              else && handle == old(other.handle) && other.handle == INVALID
                   && net.books == old(net.books).Closes(old(handle))
    {
      if this != other {
        var h := other.Release();
        Reset(h);
      }
    }
  }

  class TcpConnection {
    const socket: NativeSocket

    constructor (socket: NativeSocket)
      ensures this.socket == socket
    {
      this.socket := socket;
    }

    predicate Connected()
      reads this, socket
    {
      socket.handle != INVALID
    }

    /** Writes everything, or closes the socket and fails. */
    method WriteAll(data: string) returns (failure: Option<ErrorCode>, ghost part: string)
      requires socket.Valid()
      modifies socket, socket.net`books
      ensures socket.Valid() && part <= data
      ensures failure.None? ==> part == data && socket.handle == old(socket.handle) != INVALID
                                && socket.net.books == old(socket.net.books).Sends(socket.handle, data)
      ensures failure.Some? ==> IsTransport(failure.value) && socket.handle == INVALID
      ensures failure.Some? ==>
                var before, h := old(socket.net.books), old(socket.handle);
                socket.net.books == if h == INVALID then before else before.Sends(h, part).Closes(h)
    {
      part := "";
      if !Connected() {
        return Some(ConnectionClosed), part;
      }
      if data == "" {
        SendsTwice(socket.net.books, socket.handle, "", "");
        return None, part;
      }
      failure, part := socket.net.Send(socket.handle, data);
      if failure.Some? {
        socket.Close();
      }
    }

    /** Reads at least one byte, or closes the socket and fails. */
    method ReadSome(capacity: nat) returns (r: Result<string>)
      requires socket.Valid() && 0 < capacity
      modifies socket, socket.net`books, socket.net`supply
      ensures socket.Valid()
      ensures match r
              case Ok(bytes) => 0 < |bytes| <= capacity && socket.net.supply < old(socket.net.supply)
                                && socket.handle == old(socket.handle) != INVALID
                                && socket.net.books == old(socket.net.books).Receives(socket.handle, bytes)
              case Err(e) => IsTransport(e) && socket.handle == INVALID && socket.net.supply == old(socket.net.supply)
                             && socket.net.books == old(socket.net.books).Closes(old(socket.handle))
    {
      if !Connected() {
        return Err(ConnectionClosed);
      }
      r := socket.net.Receive(socket.handle, capacity);
      if r.Err? {
        socket.Close();
      }
    }
  }
}
