/** The servers' table of connected clients (`std::map<std::string, int>
    clients`) and the sends it routes. Every `send` a server makes is
    appended to an outbox, so that who received which frame can be stated. */
module Registry {
  import opened Bytes
  import opened Ordering
  import opened Wire
  import opened Frames

  /** A connected socket's descriptor. */
  type Socket = int

  /** One `send(sock, data)`. */
  datatype Delivery = Delivery(sock: Socket, data: Bytes)

  /** The registration error both servers send to a second client asking
      for a name in use. */
  const NicknameTaken: Bytes := Ascii("Nickname already taken")

  /** What `sendToClient(dest, data)` sends: one frame to `dest`'s socket
      when `dest` is registered, nothing otherwise. */
  function Route(clients: map<Bytes, Socket>, dest: Bytes, data: Bytes): seq<Delivery> {
    if dest in clients then [Delivery(clients[dest], data)] else []
  }

  /** The frame `sendAll` sends to the entry for `name`: one to its socket
      unless that socket is `except`. */
  function SendTo(clients: map<Bytes, Socket>, name: Bytes, data: Bytes, except: Socket): seq<Delivery> {
    if name in clients && clients[name] != except then [Delivery(clients[name], data)] else []
  }

  /** What `sendAll` sends while walking `names`: one frame to the socket of
      each name whose socket is not `except`, in the walk's order. */
  function Fanout(names: seq<Bytes>, clients: map<Bytes, Socket>, data: Bytes, except: Socket): seq<Delivery> {
    if names == [] then []
    else
      var last := names[|names| - 1];
      Fanout(names[..|names| - 1], clients, data, except) + SendTo(clients, last, data, except)
  }

  /** Walking one more name adds at most that name's delivery. */
  lemma FanoutStep(names: seq<Bytes>, i: nat, clients: map<Bytes, Socket>, data: Bytes, except: Socket)
    requires i < |names|
    ensures Fanout(names[..i + 1], clients, data, except)
         == Fanout(names[..i], clients, data, except) + SendTo(clients, names[i], data, except)
  {
    assert names[..i + 1][..i] == names[..i];
  }

  /** `sendAll(data, except)`: the fan-out over every registered name, in
      the map's ascending name order. */
  function SendAllOf(clients: map<Bytes, Socket>, data: Bytes, except: Socket): seq<Delivery> {
    Fanout(SortedNames(clients.Keys), clients, data, except)
  }

  /** A fan-out reaches exactly the sockets of the walked names other than
      `except`, each with the same frame. */
  lemma {:induction false} FanoutRecipients(names: seq<Bytes>, clients: map<Bytes, Socket>, data: Bytes, except: Socket)
    requires forall n | n in names :: n in clients
    ensures forall d | d in Fanout(names, clients, data, except) ::
      d.data == data && d.sock != except && exists n | n in names :: clients[n] == d.sock
    ensures forall n | n in names && clients[n] != except ::
      Delivery(clients[n], data) in Fanout(names, clients, data, except)
  {
    if names != [] {
      var init := names[..|names| - 1];
      var last := names[|names| - 1];
      FanoutRecipients(init, clients, data, except);
      forall d | d in Fanout(names, clients, data, except)
        ensures d.data == data && d.sock != except && exists n | n in names :: clients[n] == d.sock
      {
        if d in Fanout(init, clients, data, except) {
          var n :| n in init && clients[n] == d.sock;
          assert n in names;
        } else {
          assert d == Delivery(clients[last], data);
        }
      }
      forall n | n in names && clients[n] != except
        ensures Delivery(clients[n], data) in Fanout(names, clients, data, except)
      {
        if n != last {
          assert n in init by {
            var i :| 0 <= i < |names| && names[i] == n;
            assert i < |names| - 1;
            assert init[i] == n;
          }
        }
      }
    }
  }

  /** One delivery per walked name whose socket is not `except`. */
  lemma {:induction false} FanoutLength(names: seq<Bytes>, clients: map<Bytes, Socket>, data: Bytes, except: Socket)
    requires forall n | n in names :: n in clients
    ensures |Fanout(names, clients, data, except)| == |Skipping(names, clients, except)|
  {
    if names != [] {
      FanoutLength(names[..|names| - 1], clients, data, except);
    }
  }

  /** The walked names whose socket is not `except`. */
  function Skipping(names: seq<Bytes>, clients: map<Bytes, Socket>, except: Socket): seq<Bytes> {
    if names == [] then []
    else
      var last := names[|names| - 1];
      Skipping(names[..|names| - 1], clients, except)
        + (if last in clients && clients[last] != except then [last] else [])
  }

  /** `sendAll(data, except)` sends the frame to every registered client
      whose socket is not `except` and to no other socket. */
  lemma SendAllReaches(clients: map<Bytes, Socket>, data: Bytes, except: Socket)
    ensures forall n | n in clients && clients[n] != except ::
      Delivery(clients[n], data) in SendAllOf(clients, data, except)
    ensures forall d | d in SendAllOf(clients, data, except) ::
      d.data == data && d.sock != except && exists n | n in clients :: clients[n] == d.sock
  {
    var names := SortedNames(clients.Keys);
    FanoutRecipients(names, clients, data, except);
  }

  /** With the default `sender_client = -1`, a broadcast reaches every
      registered client, the one that just joined included. */
  lemma BroadcastWithoutSenderReachesAll(clients: map<Bytes, Socket>, data: Bytes, joiner: Bytes)
    requires forall n | n in clients :: clients[n] >= 0
    requires joiner in clients
    ensures Delivery(clients[joiner], data) in SendAllOf(clients, data, -1)
  {
    SendAllReaches(clients, data, -1);
  }

  /** Frames sent one batch after another. */
  lemma SendsInOrder(a: seq<Delivery>, b: seq<Delivery>, c: seq<Delivery>)
    ensures a + b + c == a + (b + c)
  {
  }

  /** The registered clients, as one server process keeps them. */
  class Registry {
    var clients: map<Bytes, Socket>
    var outbox: seq<Delivery>

    /** Every registered name maps to an accepted socket. */
    predicate Valid()
      reads this
    {
      forall n | n in clients :: clients[n] >= 0
    }

    constructor()
      ensures clients == map[] && outbox == []
      ensures Valid()
    {
      clients := map[];
      outbox := [];
    }

    /** The registration step: a name already present gets the error frame
      on the connecting socket and the table is unchanged; otherwise
      exactly that name is added, mapped to the socket. */
    method Register(nick: Bytes, sock: Socket) returns (ok: bool)
      requires Valid() && sock >= 0
      modifies this
      ensures Valid()
      ensures ok <==> nick !in old(clients)
      ensures ok ==> clients == old(clients)[nick := sock] && outbox == old(outbox)
      ensures !ok ==> (clients == old(clients)
                       && outbox == old(outbox) + [Delivery(sock, BuildError(NicknameTaken))])
    {
      if nick in clients {
        outbox := outbox + [Delivery(sock, BuildError(NicknameTaken))];
        ok := false;
      } else {
        clients := clients[nick := sock];
        ok := true;
      }
    }

    /** `clients.erase(nickname)` when a session ends. */
    method Unregister(nick: Bytes)
      requires Valid()
      modifies this
      ensures Valid()
      ensures clients == old(clients) - {nick} && outbox == old(outbox)
    {
      clients := clients - {nick};
    }

    /** A direct `send` on a known socket. */
    method Send(sock: Socket, data: Bytes)
      modifies this
      ensures clients == old(clients) && outbox == old(outbox) + [Delivery(sock, data)]
    {
      outbox := outbox + [Delivery(sock, data)];
    }

    /** `sendToClient(dest, data)`: sends iff `dest` is registered. */
    method SendToClient(dest: Bytes, data: Bytes)
      modifies this
      ensures clients == old(clients)
      ensures outbox == old(outbox) + Route(old(clients), dest, data)
      ensures dest in old(clients) ==> outbox == old(outbox) + [Delivery(old(clients)[dest], data)]
      ensures dest !in old(clients) ==> outbox == old(outbox)
    {
      if dest in clients {
        outbox := outbox + [Delivery(clients[dest], data)];
      }
    }

    /** `sendAll(data, except)`: walks the table in name order and sends to
      every socket other than `except`. */
    method SendAll(data: Bytes, except: Socket)
      modifies this
      ensures clients == old(clients)
      ensures outbox == old(outbox) + SendAllOf(old(clients), data, except)
    {
      SendWalk(SortedNames(clients.Keys), data, except);
    }

    /** The loop of `sendAll` over the registered names `names`, in order. */
    method SendWalk(names: seq<Bytes>, data: Bytes, except: Socket)
      requires forall n | n in names :: n in clients
      modifies this
      ensures clients == old(clients)
      ensures outbox == old(outbox) + Fanout(names, old(clients), data, except)
    {
      ghost var start := outbox;
      assert outbox == start + Fanout(names[..0], clients, data, except) by {
        assert names[..0] == [];
        assert start + [] == start;
      }
      var i := 0;
      while i < |names|
        invariant 0 <= i <= |names|
        invariant clients == old(clients)
        invariant outbox == start + Fanout(names[..i], clients, data, except)
      {
        var name := names[i];
        if clients[name] != except {
          outbox := outbox + [Delivery(clients[name], data)];
        } else {
          assert outbox == outbox + [];
        }
        FanoutStep(names, i, clients, data, except);
        SendsInOrder(start, Fanout(names[..i], clients, data, except), SendTo(clients, name, data, except));
        i := i + 1;
      }
      assert names[..|names|] == names;
    }

    /** `buildList`: each registered name as a short-length field in
      ascending name order, wrapped in an 'L' frame. */
    method BuildList() returns (packet: Bytes)
      ensures packet == ListFrame(SortedNames(clients.Keys))
    {
      var all := ListFields(SortedNames(clients.Keys));
      packet := [ListFrameTag] + ShortField(all);
    }
  }

  /** The loop of `buildList`: the names' short-length fields, in order. */
  method ListFields(names: seq<Bytes>) returns (all: Bytes)
    ensures all == ListBody(names)
  {
    all := [];
    var i := 0;
    while i < |names|
      invariant 0 <= i <= |names|
      invariant all == ListBody(names[..i])
    {
      assert names[..i + 1][..i] == names[..i];
      all := all + ShortField(names[i]);
      i := i + 1;
    }
    assert names[..|names|] == names;
  }
}
