/** How the two servers take requests off a client connection: the
    registration prefix, then one request per iteration of the
    `handleClient` loop. */
module Requests {
  import opened Bytes
  import opened Wire
  import opened Frames

  /** A request as a server has read it. Names are C strings (cut at the
      first NUL); file and object contents are kept octet for octet. */
  datatype Request =
    | Broadcast(text: Bytes)
    | Private(dest: Bytes, text: Bytes)
    | ListClients
    | Quit
    | SendFile(dest: Bytes, filename: Bytes, data: Bytes)
    | SendObject(dest: Bytes, data: Bytes)
    | Invite(dest: Bytes)
    | Reply(inviter: Bytes, response: byte)
    | Move(position: nat)
    | Unknown(tag: byte)

  /** Registration, the same in both servers: a first octet other than 'n'
      closes the connection; otherwise a short-length nickname follows. */
  function ReadRegistration(input: Bytes): (r: Read<Bytes>)
    ensures r.Got? ==> |input| > 0 && input[0] == NickTag
    ensures !r.Abandoned?
  {
    var t := RecvOnce(input, 1);
    if !t.Got? || t.value[0] != NickTag then Ended else RecvName(t.rest)
  }

  /** One request of the game-enabled server (SocketsUDP/server.cpp): every
      field is read with a checked `recv`, except the file size and file
      data, whose receive loops end the thread without cleanup when the
      input runs out. Text is kept octet for octet. */
  function ReadUdpRequest(input: Bytes): (r: Read<Request>)
    ensures r.Got? ==> |r.rest| < |input|
    ensures r.Abandoned? ==> |input| > 0 && input[0] == FileTag
  {
    var t := RecvOnce(input, 1);
    if !t.Got? then Ended else UdpBody(t.value[0], t.rest)
  }

  /** What the game-enabled server reads after the tag octet `tag`. */
  function UdpBody(tag: byte, body: Bytes): (r: Read<Request>)
    ensures r.Got? ==> |r.rest| <= |body|
    ensures r.Abandoned? ==> tag == FileTag
  {
    if tag == BroadcastTag then UdpBroadcast(body)
    else if tag == PrivateTag then UdpPrivate(body)
    else if tag == ListTag then Got(ListClients, body)
    else if tag == CloseTag then Got(Quit, body)
    else if tag == FileTag then UdpFile(body)
    else if tag == ObjectTag then UdpObject(body)
    else if tag == InviteTag then UdpInvite(body)
    else if tag == ReplyTag then UdpReply(body)
    else if tag == PositionTag then UdpMove(body)
    else Got(Unknown(tag), body)
  }

  function UdpBroadcast(body: Bytes): (r: Read<Request>)
    ensures r.Got? ==> |r.rest| <= |body|
    ensures !r.Abandoned?
  {
    var m := RecvLong(body);
    if m.Got? then Got(Broadcast(m.value), m.rest) else Ended
  }

  function UdpPrivate(body: Bytes): (r: Read<Request>)
    ensures r.Got? ==> |r.rest| <= |body|
    ensures !r.Abandoned?
  {
    var d := RecvName(body);
    if !d.Got? then Ended
    else
      var m := RecvLong(d.rest);
      if m.Got? then Got(Private(d.value, m.value), m.rest) else Ended
  }

  function UdpFile(body: Bytes): (r: Read<Request>)
    ensures r.Got? ==> |r.rest| <= |body|
  {
    var d := RecvName(body);
    if !d.Got? then Ended
    else
      var f := RecvLong(d.rest);
      if !f.Got? then Ended
      else
        var s := RecvExactly(f.rest, 10);
        if !s.Got? then Abandoned
        else
          var data := RecvExactly(s.rest, Value(s.value[2..]));
          if !data.Got? then Abandoned
          else Got(SendFile(d.value, CutAtNul(f.value), data.value), data.rest)
  }

  function UdpObject(body: Bytes): (r: Read<Request>)
    ensures r.Got? ==> |r.rest| <= |body|
    ensures !r.Abandoned?
  {
    var d := RecvName(body);
    if !d.Got? then Ended
    else
      var s := RecvOnce(d.rest, 4);
      if !s.Got? then Ended
      else
        var data := RecvOnce(s.rest, Value(s.value));
        if data.Got? then Got(SendObject(d.value, data.value), data.rest) else Ended
  }

  function UdpInvite(body: Bytes): (r: Read<Request>)
    ensures r.Got? ==> |r.rest| <= |body|
    ensures !r.Abandoned?
  {
    var d := RecvName(body);
    if d.Got? then Got(Invite(d.value), d.rest) else Ended
  }

  function UdpReply(body: Bytes): (r: Read<Request>)
    ensures r.Got? ==> |r.rest| <= |body|
    ensures !r.Abandoned?
  {
    var d := RecvName(body);
    if !d.Got? then Ended
    else
      var a := RecvOnce(d.rest, 1);
      if a.Got? then Got(Reply(d.value, a.value[0]), a.rest) else Ended
  }

  function UdpMove(body: Bytes): (r: Read<Request>)
    ensures r.Got? ==> |r.rest| <= |body|
    ensures !r.Abandoned?
  {
    var p := RecvOnce(body, 4);
    if p.Got? then Got(Move(Value(p.value)), p.rest) else Ended
  }

  /** One request of the chat server (Sockets/server.cpp): 'm' and 't'
      text becomes a C string; the 'f' handler reads its destination, file
      name, size and data with receive loops. It knows no other tags. */
  function ReadStreamRequest(input: Bytes): (r: Read<Request>)
    ensures r.Got? ==> |r.rest| < |input|
    ensures r.Got? ==> StreamRequest(r.value)
    ensures !r.Abandoned?
  {
    var t := RecvOnce(input, 1);
    if !t.Got? then Ended else StreamBody(t.value[0], t.rest)
  }

  /** The requests the chat server knows, and the unknown tag. */
  predicate StreamRequest(req: Request) {
    req.Broadcast? || req.Private? || req.ListClients? || req.Quit? || req.SendFile? || req.Unknown?
  }

  /** What the chat server reads after the tag octet `tag`. */
  function StreamBody(tag: byte, body: Bytes): (r: Read<Request>)
    ensures r.Got? ==> |r.rest| <= |body|
    ensures r.Got? ==> StreamRequest(r.value)
    ensures !r.Abandoned?
  {
    if tag == BroadcastTag then StreamBroadcast(body)
    else if tag == PrivateTag then StreamPrivate(body)
    else if tag == ListTag then Got(ListClients, body)
    else if tag == CloseTag then Got(Quit, body)
    else if tag == FileTag then StreamFile(body)
    else Got(Unknown(tag), body)
  }

  function StreamBroadcast(body: Bytes): (r: Read<Request>)
    ensures r.Got? ==> |r.rest| <= |body|
    ensures !r.Abandoned?
  {
    var m := RecvLong(body);
    if m.Got? then Got(Broadcast(CutAtNul(m.value)), m.rest) else Ended
  }

  function StreamPrivate(body: Bytes): (r: Read<Request>)
    ensures r.Got? ==> |r.rest| <= |body|
    ensures !r.Abandoned?
  {
    var d := RecvName(body);
    if !d.Got? then Ended
    else
      var m := RecvLong(d.rest);
      if m.Got? then Got(Private(d.value, CutAtNul(m.value)), m.rest) else Ended
  }

  /** A field whose 2-octet count is read with a checked `recv` and whose
      body is read with a receive loop, as the chat server's 'f' handler
      reads its destination. */
  function RecvLoopedName(body: Bytes): (r: Read<Bytes>)
    ensures r.Got? ==> |r.rest| <= |body|
    ensures !r.Abandoned?
  {
    var len := RecvOnce(body, 2);
    if !len.Got? then Ended
    else
      var d := RecvExactly(len.rest, Value(len.value));
      if d.Got? then Got(CutAtNul(d.value), d.rest) else Ended
  }

  /** The same for a 3-octet count, as the 'f' handler reads the file name. */
  function RecvLoopedLongName(body: Bytes): (r: Read<Bytes>)
    ensures r.Got? ==> |r.rest| <= |body|
    ensures !r.Abandoned?
  {
    var len := RecvOnce(body, 3);
    if !len.Got? then Ended
    else
      var f := RecvExactly(len.rest, Value(len.value));
      if f.Got? then Got(CutAtNul(f.value), f.rest) else Ended
  }

  function StreamFile(body: Bytes): (r: Read<Request>)
    ensures r.Got? ==> |r.rest| <= |body|
    ensures !r.Abandoned?
  {
    var d := RecvLoopedName(body);
    if !d.Got? then Ended
    else
      var f := RecvLoopedLongName(d.rest);
      if !f.Got? then Ended
      else
        var s := RecvExactly(f.rest, 10);
        if !s.Got? then Ended
        else
          var data := RecvExactly(s.rest, Value(s.value[2..]));
          if data.Got? then Got(SendFile(d.value, f.value, data.value), data.rest) else Ended
  }
}
