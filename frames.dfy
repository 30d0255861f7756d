/** The frames of the chat protocol: a one-octet type tag followed by
    fixed-layout fields. Servers build the upper-case frames; clients send
    the lower-case requests. */
module Frames {
  import opened Bytes
  import opened Wire

  // Requests (client to server).
  const NickTag: byte := 0x6E // 'n'
  const BroadcastTag: byte := 0x6D // 'm'
  const PrivateTag: byte := 0x74 // 't'
  const ListTag: byte := 0x6C // 'l'
  const CloseTag: byte := 0x78 // 'x'
  const FileTag: byte := 0x66 // 'f'
  const ObjectTag: byte := 0x6F // 'o'
  const PositionTag: byte := 0x50 // 'P'

  // Frames (server to client).
  const ErrorFrameTag: byte := 0x45 // 'E'
  const BroadcastFrameTag: byte := 0x4D // 'M'
  const PrivateFrameTag: byte := 0x54 // 'T'
  const ListFrameTag: byte := 0x4C // 'L'
  const CloseFrameTag: byte := 0x58 // 'X'
  const FileFrameTag: byte := 0x46 // 'F'
  const ObjectFrameTag: byte := 0x4F // 'O'
  const BoardFrameTag: byte := 0x42 // 'B'
  const ResultFrameTag: byte := 0x57 // 'W'

  // Game invitations travel in both directions with the same layout.
  const InviteTag: byte := 0x4A // 'J'
  const ReplyTag: byte := 0x6A // 'j'

  const Yes: byte := 0x79 // 'y'
  const No: byte := 0x6E // 'n'

  /** `buildClose`: the single octet 'X'. */
  function BuildClose(): Bytes {
    [CloseFrameTag]
  }

  /** `buildError`: 'E', then the message as a long-length field. */
  function BuildError(msg: Bytes): Bytes {
    [ErrorFrameTag] + LongField(msg)
  }

  /** `buildBroadcast`: 'M', the sender as a short-length field, then the
      text as a long-length field. */
  function BuildBroadcast(sender: Bytes, msg: Bytes): Bytes {
    [BroadcastFrameTag] + ShortField(sender) + LongField(msg)
  }

  /** `buildToClient`: the same layout as a broadcast under tag 'T'. */
  function BuildToClient(sender: Bytes, msg: Bytes): Bytes {
    [PrivateFrameTag] + ShortField(sender) + LongField(msg)
  }

  /** The body of an 'L' frame: each name as a short-length field, in the
      given order. */
  function ListBody(names: seq<Bytes>): Bytes {
    if names == [] then [] else ListBody(names[..|names| - 1]) + ShortField(names[|names| - 1])
  }

  /** The 'L' frame: the tag, then the body as a short-length field (its
      2-octet total keeps the low 16 bits of the body's length). */
  function ListFrame(names: seq<Bytes>): Bytes {
    [ListFrameTag] + ShortField(ListBody(names))
  }

  /** `buildFile`: 'F', sender, file name as a long-length field, the
      10-octet size (with the two octets of the undefined shifts as
      `high`), then the data. */
  function BuildFile(sender: Bytes, filename: Bytes, data: Bytes, high: Bytes): Bytes
    requires |high| == 2
  {
    [FileFrameTag] + ShortField(sender) + LongField(filename) + FileSizeField(|data|, high) + data
  }

  /** `buildObject`: 'O', sender, the object size as a 4-octet big-endian
      field (`htonl`), then the object octets. */
  function BuildObject(sender: Bytes, data: Bytes): Bytes {
    [ObjectFrameTag] + ShortField(sender) + BigEndian(|data|, 4) + data
  }

  /** `buildGameRequest`, and the client's `sendGameRequest`: 'J' and one
      name. The server names the inviter; the client names the invitee. */
  function BuildGameRequest(name: Bytes): Bytes {
    [InviteTag] + ShortField(name)
  }

  /** `buildGameResponse`, and the client's `sendGameResponse`: 'j', a name,
      then 'y' or 'n'. */
  function BuildGameResponse(name: Bytes, accepted: bool): Bytes {
    [ReplyTag] + ShortField(name) + [if accepted then Yes else No]
  }

  /** `buildBoard`: 'B', the board cells as a short-length field, then the
      name of the player to move as a short-length field. */
  function BuildBoard(board: Bytes, currentPlayer: Bytes): Bytes {
    [BoardFrameTag] + ShortField(board) + ShortField(currentPlayer)
  }

  /** `buildGameResult`: 'W' and one result octet. */
  function BuildGameResult(result: byte): Bytes {
    [ResultFrameTag, result]
  }

  /** `sendNickname`: 'n' and the nickname as a short-length field. */
  function NicknamePacket(nick: Bytes): Bytes {
    [NickTag] + ShortField(nick)
  }

  /** `sendBroadcast`: 'm' and the text as a long-length field. */
  function BroadcastPacket(msg: Bytes): Bytes {
    [BroadcastTag] + LongField(msg)
  }

  /** `sendToClient` (client side): 't', the destination, then the text. */
  function PrivatePacket(dest: Bytes, msg: Bytes): Bytes {
    [PrivateTag] + ShortField(dest) + LongField(msg)
  }

  /** `requestList`: the single octet 'l'. */
  function ListRequestPacket(): Bytes {
    [ListTag]
  }

  /** `sendClose`: the single octet 'x'. */
  function ClosePacket(): Bytes {
    [CloseTag]
  }

  /** The packet `sendFile` sends once the file's octets are in memory. */
  function FilePacket(dest: Bytes, filename: Bytes, data: Bytes, high: Bytes): Bytes
    requires |high| == 2
  {
    [FileTag] + ShortField(dest) + LongField(filename) + FileSizeField(|data|, high) + data
  }

  /** `sendObject`: 'o', the destination, a 4-octet size, then the object
      octets (the serialised object is an opaque blob here). */
  function ObjectPacket(dest: Bytes, data: Bytes): Bytes {
    [ObjectTag] + ShortField(dest) + BigEndian(|data|, 4) + data
  }

  /** `sendBoardPosition`: 'P' and the position as a 4-octet big-endian
      field (the low 32 bits of `uint32_t pos = position`). */
  function PositionPacket(position: nat): Bytes {
    [PositionTag] + BigEndian(position, 4)
  }
}
