/** Each request a client builds is read back by the server it is sent
    to: the round trips of the request layouts. */
module RequestLaws {
  import opened Bytes
  import opened Wire
  import opened Frames
  import opened Requests

  lemma TagSplit(tag: byte, body: Bytes)
    ensures RecvOnce([tag] + body, 1) == Got([tag], body)
    ensures ReadUdpRequest([tag] + body) == UdpBody(tag, body)
  {
    RecvOnceConcat([tag], body);
  }

  /** The same for the chat server's reader. */
  lemma StreamTagSplit(tag: byte, body: Bytes)
    ensures ReadStreamRequest([tag] + body) == StreamBody(tag, body)
  {
    RecvOnceConcat([tag], body);
  }

  // Which reader the game-enabled server runs for each tag.

  lemma UdpFileCase(body: Bytes)
    ensures UdpBody(FileTag, body) == UdpFile(body)
  {
  }

  lemma UdpObjectCase(body: Bytes)
    ensures UdpBody(ObjectTag, body) == UdpObject(body)
  {
  }

  lemma UdpInviteCase(body: Bytes)
    ensures UdpBody(InviteTag, body) == UdpInvite(body)
  {
  }

  lemma UdpReplyCase(body: Bytes)
    ensures UdpBody(ReplyTag, body) == UdpReply(body)
  {
  }

  lemma UdpMoveCase(body: Bytes)
    ensures UdpBody(PositionTag, body) == UdpMove(body)
  {
  }

  lemma StreamFileCase(body: Bytes)
    ensures StreamBody(FileTag, body) == StreamFile(body)
  {
  }

  /** The nickname a client sends is what the server registers, cut at its
      first NUL; an empty nickname ends the session unregistered. */
  lemma RegistrationRoundTrip(nick: Bytes, rest: Bytes)
    requires |nick| < 0x1_0000
    ensures 0 < |nick| ==> ReadRegistration(NicknamePacket(nick) + rest) == Got(CutAtNul(nick), rest)
    ensures nick == [] ==> ReadRegistration(NicknamePacket(nick) + rest) == Ended
  {
    Concat3([NickTag], ShortField(nick), rest);
    TagSplit(NickTag, ShortField(nick) + rest);
    if nick == [] {
      RecvEmptyNameEnds(rest);
    } else {
      RecvNameRoundTrip(nick, rest);
    }
  }

  /** 'm': the game-enabled server reads back the broadcast text exactly. */
  lemma UdpBroadcastRoundTrip(msg: Bytes, rest: Bytes)
    requires 0 < |msg| < 0x100_0000
    ensures ReadUdpRequest(BroadcastPacket(msg) + rest) == Got(Broadcast(msg), rest)
  {
    Concat3([BroadcastTag], LongField(msg), rest);
    TagSplit(BroadcastTag, LongField(msg) + rest);
    RecvLongRoundTrip(msg, rest);
    assert UdpBroadcast(LongField(msg) + rest) == Got(Broadcast(msg), rest);
  }

  /** 't': destination (as a C string) and exact text. */
  lemma UdpPrivateRoundTrip(dest: Bytes, msg: Bytes, rest: Bytes)
    requires 0 < |dest| < 0x1_0000 && 0 < |msg| < 0x100_0000
    ensures ReadUdpRequest(PrivatePacket(dest, msg) + rest) == Got(Private(CutAtNul(dest), msg), rest)
  {
    Concat4([PrivateTag], ShortField(dest), LongField(msg), rest);
    TagSplit(PrivateTag, ShortField(dest) + (LongField(msg) + rest));
    RecvNameRoundTrip(dest, LongField(msg) + rest);
    RecvLongRoundTrip(msg, rest);
    assert UdpPrivate(ShortField(dest) + (LongField(msg) + rest)) == Got(Private(CutAtNul(dest), msg), rest);
  }

  /** 'l' and 'x' are single octets in both servers. */
  lemma SingleOctetRequests(rest: Bytes)
    ensures ReadUdpRequest(ListRequestPacket() + rest) == Got(ListClients, rest)
    ensures ReadUdpRequest(ClosePacket() + rest) == Got(Quit, rest)
    ensures ReadStreamRequest(ListRequestPacket() + rest) == Got(ListClients, rest)
    ensures ReadStreamRequest(ClosePacket() + rest) == Got(Quit, rest)
  {
    TagSplit(ListTag, rest);
    TagSplit(CloseTag, rest);
    StreamTagSplit(ListTag, rest);
    StreamTagSplit(CloseTag, rest);
  }

  /** 'f': destination and file name as C strings, then exactly the file's
      octets, whatever the two high octets of the size field hold. */
  lemma UdpFileRoundTrip(dest: Bytes, filename: Bytes, data: Bytes, high: Bytes, rest: Bytes)
    requires 0 < |dest| < 0x1_0000 && 0 < |filename| < 0x100_0000
    requires |high| == 2 && |data| < 0x1_0000_0000_0000_0000
    ensures ReadUdpRequest(FilePacket(dest, filename, data, high) + rest)
         == Got(SendFile(CutAtNul(dest), CutAtNul(filename), data), rest)
  {
    var size := FileSizeField(|data|, high);
    var tail := size + (data + rest);
    Concat6([FileTag], ShortField(dest), LongField(filename), size, data, rest);
    TagSplit(FileTag, ShortField(dest) + (LongField(filename) + tail));
    UdpFileCase(ShortField(dest) + (LongField(filename) + tail));
    UdpFileBody(dest, filename, data, high, rest);
  }

  lemma UdpFileBody(dest: Bytes, filename: Bytes, data: Bytes, high: Bytes, rest: Bytes)
    requires 0 < |dest| < 0x1_0000 && 0 < |filename| < 0x100_0000
    requires |high| == 2 && |data| < 0x1_0000_0000_0000_0000
    ensures UdpFile(ShortField(dest) + (LongField(filename) + (FileSizeField(|data|, high) + (data + rest))))
         == Got(SendFile(CutAtNul(dest), CutAtNul(filename), data), rest)
  {
    var size := FileSizeField(|data|, high);
    var tail := size + (data + rest);
    RecvNameRoundTrip(dest, LongField(filename) + tail);
    RecvLongRoundTrip(filename, tail);
    RecvExactlyConcat(size, data + rest);
    FileSizeRoundTrip(|data|, high);
    RecvExactlyConcat(data, rest);
  }

  /** A connection that ends inside the ten-octet size field of an 'f'
      request makes the game-enabled server's size loop return early. */
  lemma TruncatedFileAbandons(dest: Bytes, filename: Bytes, partial: Bytes)
    requires 0 < |dest| < 0x1_0000 && 0 < |filename| < 0x100_0000 && |partial| < 10
    ensures ReadUdpRequest([FileTag] + ShortField(dest) + LongField(filename) + partial) == Abandoned
  {
    Concat4([FileTag], ShortField(dest), LongField(filename), partial);
    TagSplit(FileTag, ShortField(dest) + (LongField(filename) + partial));
    RecvNameRoundTrip(dest, LongField(filename) + partial);
    RecvLongRoundTrip(filename, partial);
  }

  /** 'o': destination as a C string, then the object octets. */
  lemma UdpObjectRoundTrip(dest: Bytes, data: Bytes, rest: Bytes)
    requires 0 < |dest| < 0x1_0000 && 0 < |data| < 0x1_0000_0000
    ensures ReadUdpRequest(ObjectPacket(dest, data) + rest) == Got(SendObject(CutAtNul(dest), data), rest)
  {
    var body := ShortField(dest) + (BigEndian(|data|, 4) + (data + rest));
    Concat5([ObjectTag], ShortField(dest), BigEndian(|data|, 4), data, rest);
    assert ObjectPacket(dest, data) + rest == [ObjectTag] + body;
    TagSplit(ObjectTag, body);
    UdpObjectCase(body);
    UdpObjectBody(dest, data, rest);
  }

  lemma UdpObjectBody(dest: Bytes, data: Bytes, rest: Bytes)
    requires 0 < |dest| < 0x1_0000 && 0 < |data| < 0x1_0000_0000
    ensures UdpObject(ShortField(dest) + (BigEndian(|data|, 4) + (data + rest)))
         == Got(SendObject(CutAtNul(dest), data), rest)
  {
    var size := BigEndian(|data|, 4);
    RecvNameRoundTrip(dest, size + (data + rest));
    RecvOnceConcat(size, data + rest);
    assert Pow256(4) == 0x1_0000_0000;
    BigEndianRoundTrip(|data|, 4);
    RecvOnceConcat(data, rest);
  }

  /** 'J': the invitee's name. */
  lemma InviteRoundTrip(dest: Bytes, rest: Bytes)
    requires 0 < |dest| < 0x1_0000
    ensures ReadUdpRequest(BuildGameRequest(dest) + rest) == Got(Invite(CutAtNul(dest)), rest)
  {
    Concat3([InviteTag], ShortField(dest), rest);
    TagSplit(InviteTag, ShortField(dest) + rest);
    UdpInviteCase(ShortField(dest) + rest);
    RecvNameRoundTrip(dest, rest);
  }

  /** 'j': the inviter's name and the answer octet. */
  lemma ReplyRoundTrip(inviter: Bytes, accepted: bool, rest: Bytes)
    requires 0 < |inviter| < 0x1_0000
    ensures ReadUdpRequest(BuildGameResponse(inviter, accepted) + rest)
         == Got(Reply(CutAtNul(inviter), if accepted then Yes else No), rest)
  {
    var answer := if accepted then Yes else No;
    assert BuildGameResponse(inviter, accepted) == [ReplyTag] + ShortField(inviter) + [answer];
    ReplyAnswerRoundTrip(inviter, answer, rest);
  }

  lemma ReplyAnswerRoundTrip(inviter: Bytes, answer: byte, rest: Bytes)
    requires 0 < |inviter| < 0x1_0000
    ensures ReadUdpRequest([ReplyTag] + ShortField(inviter) + [answer] + rest)
         == Got(Reply(CutAtNul(inviter), answer), rest)
  {
    var body := ShortField(inviter) + ([answer] + rest);
    Concat4([ReplyTag], ShortField(inviter), [answer], rest);
    TagSplit(ReplyTag, body);
    UdpReplyCase(body);
    UdpReplyBody(inviter, answer, rest);
  }

  lemma UdpReplyBody(inviter: Bytes, answer: byte, rest: Bytes)
    requires 0 < |inviter| < 0x1_0000
    ensures UdpReply(ShortField(inviter) + ([answer] + rest)) == Got(Reply(CutAtNul(inviter), answer), rest)
  {
    RecvNameRoundTrip(inviter, [answer] + rest);
    RecvOnceConcat([answer], rest);
  }

  /** 'P': every 32-bit position reads back. */
  lemma MoveRoundTrip(position: nat, rest: Bytes)
    requires position < 0x1_0000_0000
    ensures ReadUdpRequest(PositionPacket(position) + rest) == Got(Move(position), rest)
  {
    var field := BigEndian(position, 4);
    Concat3([PositionTag], field, rest);
    TagSplit(PositionTag, field + rest);
    RecvOnceConcat(field, rest);
    assert Pow256(4) == 0x1_0000_0000;
    BigEndianRoundTrip(position, 4);
  }

  /** 'm' on the chat server: the text arrives cut at its first NUL. */
  lemma StreamBroadcastRoundTrip(msg: Bytes, rest: Bytes)
    requires 0 < |msg| < 0x100_0000
    ensures ReadStreamRequest(BroadcastPacket(msg) + rest) == Got(Broadcast(CutAtNul(msg)), rest)
  {
    Concat3([BroadcastTag], LongField(msg), rest);
    StreamTagSplit(BroadcastTag, LongField(msg) + rest);
    RecvLongRoundTrip(msg, rest);
    assert StreamBroadcast(LongField(msg) + rest) == Got(Broadcast(CutAtNul(msg)), rest);
  }

  /** 't' on the chat server: destination and text both cut at NUL. */
  lemma StreamPrivateRoundTrip(dest: Bytes, msg: Bytes, rest: Bytes)
    requires 0 < |dest| < 0x1_0000 && 0 < |msg| < 0x100_0000
    ensures ReadStreamRequest(PrivatePacket(dest, msg) + rest)
         == Got(Private(CutAtNul(dest), CutAtNul(msg)), rest)
  {
    Concat4([PrivateTag], ShortField(dest), LongField(msg), rest);
    StreamTagSplit(PrivateTag, ShortField(dest) + (LongField(msg) + rest));
    RecvNameRoundTrip(dest, LongField(msg) + rest);
    RecvLongRoundTrip(msg, rest);
    assert StreamPrivate(ShortField(dest) + (LongField(msg) + rest)) == Got(Private(CutAtNul(dest), CutAtNul(msg)), rest);
  }

  /** 'f' on the chat server: its receive loops also accept an empty
      destination or file name. */
  lemma StreamFileRoundTrip(dest: Bytes, filename: Bytes, data: Bytes, high: Bytes, rest: Bytes)
    requires |dest| < 0x1_0000 && |filename| < 0x100_0000
    requires |high| == 2 && |data| < 0x1_0000_0000_0000_0000
    ensures ReadStreamRequest(FilePacket(dest, filename, data, high) + rest)
         == Got(SendFile(CutAtNul(dest), CutAtNul(filename), data), rest)
  {
    var size := FileSizeField(|data|, high);
    var tail := size + (data + rest);
    Concat6([FileTag], ShortField(dest), LongField(filename), size, data, rest);
    StreamTagSplit(FileTag, ShortField(dest) + (LongField(filename) + tail));
    StreamFileCase(ShortField(dest) + (LongField(filename) + tail));
    StreamFileBody(dest, filename, data, high, rest);
  }

  lemma StreamFileBody(dest: Bytes, filename: Bytes, data: Bytes, high: Bytes, rest: Bytes)
    requires |dest| < 0x1_0000 && |filename| < 0x100_0000
    requires |high| == 2 && |data| < 0x1_0000_0000_0000_0000
    ensures StreamFile(ShortField(dest) + (LongField(filename) + (FileSizeField(|data|, high) + (data + rest))))
         == Got(SendFile(CutAtNul(dest), CutAtNul(filename), data), rest)
  {
    var size := FileSizeField(|data|, high);
    var tail := size + (data + rest);
    var dl := BigEndian(|dest|, 2);
    var fl := BigEndian(|filename|, 3);
    Concat3(dl, dest, LongField(filename) + tail);
    Concat3(fl, filename, tail);
    RecvOnceConcat(dl, dest + (LongField(filename) + tail));
    BigEndianRoundTrip(|dest|, 2);
    RecvExactlyConcat(dest, LongField(filename) + tail);
    assert RecvLoopedName(ShortField(dest) + (LongField(filename) + tail))
        == Got(CutAtNul(dest), LongField(filename) + tail);
    RecvOnceConcat(fl, filename + tail);
    BigEndianRoundTrip(|filename|, 3);
    RecvExactlyConcat(filename, tail);
    assert RecvLoopedLongName(LongField(filename) + tail) == Got(CutAtNul(filename), tail);
    RecvExactlyConcat(size, data + rest);
    FileSizeRoundTrip(|data|, high);
    RecvExactlyConcat(data, rest);
  }

  /** The chat server knows none of the game or object requests: it skips
      their tag octet and reads the next octet as a new request. */
  lemma StreamSkipsGameRequests(dest: Bytes, rest: Bytes)
    ensures ReadStreamRequest(BuildGameRequest(dest) + rest)
         == Got(Unknown(InviteTag), ShortField(dest) + rest)
  {
    Concat3([InviteTag], ShortField(dest), rest);
    StreamTagSplit(InviteTag, ShortField(dest) + rest);
  }
}
