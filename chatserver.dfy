/** The chat server (Sockets/server.cpp): registration, a join broadcast
    that reaches everyone, the request loop over 'm', 't', 'l', 'x' and
    'f', then the name's removal and a leave broadcast. The shared table
    is a `Registry`. */
module ChatServer {
  import opened Bytes
  import opened Ordering
  import opened Wire
  import opened Frames
  import opened Requests
  import opened Registry

  const JoinedText: Bytes := Ascii(" joined the chat")
  const LeftText: Bytes := Ascii(" left the chat")

  /** The error text for a destination that is not registered. */
  function NotFound(dest: Bytes): Bytes {
    Ascii("User ") + dest + Ascii(" not found")
  }

  /** What one request of the chat server sends. `high` fills the two
      undefined octets of a forwarded file's size field; a session passes
      the same pair to every request, so all the files it forwards carry
      the same two octets there. */
  function ChatEffect(clients: map<Bytes, Socket>, nick: Bytes, sock: Socket, req: Request, high: Bytes): seq<Delivery>
    requires |high| == 2
  {
    match req
    case Broadcast(text) => SendAllOf(clients, BuildBroadcast(nick, text), sock)
    case Private(dest, text) =>
      if dest in clients then Route(clients, dest, BuildToClient(nick, text))
      else Route(clients, nick, BuildError(NotFound(dest)))
    case ListClients => [Delivery(sock, ListFrame(SortedNames(clients.Keys)))]
    case Quit => [Delivery(sock, BuildClose())]
    case SendFile(dest, filename, data) =>
      if dest in clients then Route(clients, dest, BuildFile(nick, filename, data, high))
      else Route(clients, nick, BuildError(NotFound(dest)))
    case _ => []
  }

  /** A broadcast reaches every registered socket but the sender's, and no
      other; a private message or file reaches its registered destination
      only, and otherwise comes back to the sender as an error; 'x' is
      answered with exactly the close frame on the sender's socket. */
  lemma ChatEffectRecipients(clients: map<Bytes, Socket>, nick: Bytes, sock: Socket, req: Request, high: Bytes)
    requires |high| == 2 && nick in clients
    ensures req.Broadcast? ==>
      && (forall n | n in clients && clients[n] != sock ::
            Delivery(clients[n], BuildBroadcast(nick, req.text)) in ChatEffect(clients, nick, sock, req, high))
      && (forall d | d in ChatEffect(clients, nick, sock, req, high) ::
            d.sock != sock && d.data == BuildBroadcast(nick, req.text))
    ensures req.Private? ==>
      ChatEffect(clients, nick, sock, req, high)
        == if req.dest in clients then [Delivery(clients[req.dest], BuildToClient(nick, req.text))]
           else [Delivery(clients[nick], BuildError(NotFound(req.dest)))]
    ensures req.SendFile? ==>
      ChatEffect(clients, nick, sock, req, high)
        == if req.dest in clients then [Delivery(clients[req.dest], BuildFile(nick, req.filename, req.data, high))]
           else [Delivery(clients[nick], BuildError(NotFound(req.dest)))]
    ensures req.Quit? ==> ChatEffect(clients, nick, sock, req, high) == [Delivery(sock, [CloseFrameTag])]
  {
    if req.Broadcast? {
      SendAllReaches(clients, BuildBroadcast(nick, req.text), sock);
    }
  }

  /** The request loop: every frame sent until the input ends or after the
      close frame answering 'x'. */
  function ChatSession(clients: map<Bytes, Socket>, nick: Bytes, sock: Socket, input: Bytes, high: Bytes): seq<Delivery>
    requires |high| == 2
    decreases |input|
  {
    var read := ReadStreamRequest(input);
    if !read.Got? then []
    else if read.value.Quit? then ChatEffect(clients, nick, sock, read.value, high)
    else ChatEffect(clients, nick, sock, read.value, high) + ChatSession(clients, nick, sock, read.rest, high)
  }

  /** The table and the frames sent once one connection's `handleClient`
      returns. */
  datatype Chatted = Chatted(clients: map<Bytes, Socket>, sent: seq<Delivery>)

  function ChatServe(clients: map<Bytes, Socket>, sock: Socket, input: Bytes, high: Bytes): Chatted
    requires |high| == 2
  {
    var login := ReadRegistration(input);
    if !login.Got? then Chatted(clients, [])
    else if login.value in clients then Chatted(clients, [Delivery(sock, BuildError(NicknameTaken))])
    else
      var nick := login.value;
      var joined := clients[nick := sock];
      var left := joined - {nick};
      Chatted(left,
              SendAllOf(joined, BuildBroadcast(nick, JoinedText), -1)
              + ChatSession(joined, nick, sock, login.rest, high)
              + SendAllOf(left, BuildBroadcast(nick, LeftText), -1))
  }

  /** A connection that does not register changes nothing; a name in use
      gets only the error frame; a registered session ends with the table
      as it found it, the newcomer among those told it joined, and every
      client still registered told it left. */
  lemma ChatServeOutcome(clients: map<Bytes, Socket>, sock: Socket, input: Bytes, high: Bytes)
    requires |high| == 2 && sock >= 0
    requires forall n | n in clients :: clients[n] >= 0
    ensures !ReadRegistration(input).Got? ==> ChatServe(clients, sock, input, high) == Chatted(clients, [])
    ensures ReadRegistration(input).Got? && ReadRegistration(input).value in clients ==>
      ChatServe(clients, sock, input, high) == Chatted(clients, [Delivery(sock, BuildError(NicknameTaken))])
    ensures ReadRegistration(input).Got? && ReadRegistration(input).value !in clients ==>
      var nick := ReadRegistration(input).value;
      var after := ChatServe(clients, sock, input, high);
      && after.clients == clients
      && Delivery(sock, BuildBroadcast(nick, JoinedText)) in after.sent
      && (forall n | n in clients :: Delivery(clients[n], BuildBroadcast(nick, LeftText)) in after.sent)
  {
    var login := ReadRegistration(input);
    if login.Got? && login.value !in clients {
      var nick := login.value;
      var joined := clients[nick := sock];
      assert joined - {nick} == clients;
      BroadcastWithoutSenderReachesAll(joined, BuildBroadcast(nick, JoinedText), nick);
      SendAllReaches(clients, BuildBroadcast(nick, LeftText), -1);
    }
  }

  /** One iteration of the request loop. */
  method Handle(reg: Registry, nick: Bytes, sock: Socket, req: Request, high: Bytes)
    requires |high| == 2
    modifies reg
    ensures reg.clients == old(reg.clients)
    ensures reg.outbox == old(reg.outbox) + ChatEffect(old(reg.clients), nick, sock, req, high)
  {
    match req
    case Broadcast(text) => reg.SendAll(BuildBroadcast(nick, text), sock);
    case Private(dest, text) =>
      if dest in reg.clients {
        reg.SendToClient(dest, BuildToClient(nick, text));
      } else {
        reg.SendToClient(nick, BuildError(NotFound(dest)));
      }
    case ListClients =>
      var list := reg.BuildList();
      reg.Send(sock, list);
    case Quit => reg.Send(sock, BuildClose());
    case SendFile(dest, filename, data) =>
      if dest in reg.clients {
        reg.SendToClient(dest, BuildFile(nick, filename, data, high));
      } else {
        reg.SendToClient(nick, BuildError(NotFound(dest)));
      }
    case _ =>
  }

  /** The `while (true)` loop of `handleClient`. */
  method RequestLoop(reg: Registry, nick: Bytes, sock: Socket, input: Bytes, high: Bytes)
    requires |high| == 2
    modifies reg
    ensures reg.clients == old(reg.clients)
    ensures reg.outbox == old(reg.outbox) + ChatSession(old(reg.clients), nick, sock, input, high)
  {
    ghost var clients := reg.clients;
    var rest := input;
    var done := false;
    while !done
      invariant reg.clients == clients
      invariant !done ==> old(reg.outbox) + ChatSession(clients, nick, sock, input, high)
                          == reg.outbox + ChatSession(clients, nick, sock, rest, high)
      invariant done ==> reg.outbox == old(reg.outbox) + ChatSession(clients, nick, sock, input, high)
      decreases |rest| + (if done then 0 else 1)
    {
      var read := ReadStreamRequest(rest);
      if !read.Got? {
        assert ChatSession(clients, nick, sock, rest, high) == [];
        assert reg.outbox + [] == reg.outbox;
        done := true;
      } else {
        ghost var before := reg.outbox;
        ghost var now := ChatEffect(clients, nick, sock, read.value, high);
        Handle(reg, nick, sock, read.value, high);
        if read.value.Quit? {
          assert ChatSession(clients, nick, sock, rest, high) == now;
          done := true;
        } else {
          ghost var tail := ChatSession(clients, nick, sock, read.rest, high);
          assert ChatSession(clients, nick, sock, rest, high) == now + tail;
          SendsInOrder(before, now, tail);
          rest := read.rest;
        }
      }
    }
  }

  /** `handleClient(sock)` of the chat server for a connection whose whole
      input is `input`. */
  method Serve(reg: Registry, sock: Socket, input: Bytes, high: Bytes)
    requires reg.Valid() && sock >= 0 && |high| == 2
    modifies reg
    ensures reg.Valid()
    ensures reg.clients == ChatServe(old(reg.clients), sock, input, high).clients
    ensures reg.outbox == old(reg.outbox) + ChatServe(old(reg.clients), sock, input, high).sent
  {
    var login := ReadRegistration(input);
    if !login.Got? {
      return;
    }
    var nick := login.value;
    var ok := reg.Register(nick, sock);
    if !ok {
      return;
    }
    ghost var joined := reg.clients;
    ghost var outbox0 := reg.outbox;
    reg.SendAll(BuildBroadcast(nick, JoinedText), -1);
    ghost var afterJoin := reg.outbox;
    RequestLoop(reg, nick, sock, login.rest, high);
    ghost var afterLoop := reg.outbox;
    reg.Unregister(nick);
    reg.SendAll(BuildBroadcast(nick, LeftText), -1);
    ghost var join := SendAllOf(joined, BuildBroadcast(nick, JoinedText), -1);
    ghost var session := ChatSession(joined, nick, sock, login.rest, high);
    ghost var leave := SendAllOf(joined - {nick}, BuildBroadcast(nick, LeftText), -1);
    assert reg.outbox == outbox0 + join + session + leave;
    SendsInOrder(outbox0, join, session);
    SendsInOrder(outbox0, join + session, leave);
  }
}
