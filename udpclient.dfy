/** The game-enabled client (SocketsUDP/client.cpp) on its receiving side:
    the frame reader of `receiveMessages`, `parseListResponse`, the name a
    received file is saved under, the invitation answer, the result codes
    and the guard on the position it sends. Its packets are the ones in
    `Frames`. */
module UdpClient {
  import opened Bytes
  import opened Wire
  import opened Frames
  import opened Requests
  import RequestLaws
  import TicTacToe
  import GameSession

  /** A frame as the client has read it. Names are C strings; texts, file
      and object contents and the board are kept octet for octet. */
  datatype Notice =
    | ErrorNotice(text: Bytes)
    | BroadcastNotice(sender: Bytes, text: Bytes)
    | PrivateNotice(sender: Bytes, text: Bytes)
    | ListNotice(names: seq<Bytes>)
    | CloseNotice
    | FileNotice(sender: Bytes, filename: Bytes, data: Bytes)
    | ObjectNotice(sender: Bytes, data: Bytes)
    | InviteNotice(sender: Bytes)
    | ReplyNotice(sender: Bytes, response: byte)
    | BoardNotice(board: Bytes, currentPlayer: Bytes)
    | ResultNotice(code: byte)
    | Ignored(tag: byte)

  /** The names of an 'L' body, read front to back: a 2-octet count, then
      that many octets; reading stops at the first entry whose count or
      body would run past the end. */
  function ParseNames(buf: Bytes): (names: seq<Bytes>)
    decreases |buf|
  {
    if |buf| < 2 then []
    else
      var n := Value(buf[..2]);
      if 2 + n > |buf| then [] else [buf[2..2 + n]] + ParseNames(buf[2 + n..])
  }

  /** One iteration of `receiveMessages`: the tag octet read with a checked
      `recv` (`r <= 0` ends the thread), then the frame's fields read with
      unchecked calls. */
  function ReadNotice(input: Bytes): (r: Read<Notice>)
    ensures r.Got? ==> |r.rest| < |input|
    ensures !r.Abandoned?
  {
    var t := RecvOnce(input, 1);
    if !t.Got? then Ended else NoticeBody(t.value[0], t.rest)
  }

  /** What the client reads after the tag octet `tag`. */
  function NoticeBody(tag: byte, body: Bytes): (r: Read<Notice>)
    ensures r.Got? ==> |r.rest| <= |body|
    ensures !r.Abandoned?
  {
    if tag == InviteTag || tag == ReplyTag || tag == BoardFrameTag || tag == ResultFrameTag then GameBody(tag, body)
    else if tag == ErrorFrameTag then ErrorBody(body)
    else if tag == BroadcastFrameTag || tag == PrivateFrameTag then MessageBody(tag, body)
    else if tag == CloseFrameTag then Got(CloseNotice, body)
    else if tag == ObjectFrameTag then ObjectBody(body)
    else if tag == ListFrameTag then ListBodyRead(body)
    else if tag == FileFrameTag then FileBody(body)
    else Got(Ignored(tag), body)
  }

  /** The handlers of the game frames 'J', 'j', 'B' and 'W'. */
  function GameBody(tag: byte, body: Bytes): (r: Read<Notice>)
    requires tag == InviteTag || tag == ReplyTag || tag == BoardFrameTag || tag == ResultFrameTag
    ensures r.Got? ==> |r.rest| <= |body|
    ensures !r.Abandoned?
  {
    if tag == InviteTag then InviteBody(body)
    else if tag == ReplyTag then ReplyBody(body)
    else if tag == BoardFrameTag then BoardBody(body)
    else ResultBody(body)
  }

  /** The 'E' handler: the error text as a long-length field. */
  function ErrorBody(body: Bytes): (r: Read<Notice>)
    ensures r.Got? ==> |r.rest| <= |body|
    ensures !r.Abandoned?
  {
    var m := ReadLong(body);
    if m.Got? then Got(ErrorNotice(m.value), m.rest) else Ended
  }

  /** The 'M' and 'T' handlers: the sender, then the text. */
  function MessageBody(tag: byte, body: Bytes): (r: Read<Notice>)
    ensures r.Got? ==> |r.rest| <= |body|
    ensures !r.Abandoned?
  {
    var s := ReadName(body);
    if !s.Got? then Ended
    else
      var m := ReadLong(s.rest);
      if !m.Got? then Ended
      else if tag == BroadcastFrameTag then Got(BroadcastNotice(s.value, m.value), m.rest)
      else Got(PrivateNotice(s.value, m.value), m.rest)
  }

  /** The 'L' handler: the body as a short-length field, then the names
      parsed out of it. */
  function ListBodyRead(body: Bytes): (r: Read<Notice>)
    ensures r.Got? ==> |r.rest| <= |body|
    ensures !r.Abandoned?
  {
    var all := ReadShort(body);
    if all.Got? then Got(ListNotice(ParseNames(all.value)), all.rest) else Ended
  }

  /** The 'J' handler: the inviter's name. */
  function InviteBody(body: Bytes): (r: Read<Notice>)
    ensures r.Got? ==> |r.rest| <= |body|
    ensures !r.Abandoned?
  {
    var s := ReadName(body);
    if s.Got? then Got(InviteNotice(s.value), s.rest) else Ended
  }

  /** The 'j' handler: a name and the answer octet. */
  function ReplyBody(body: Bytes): (r: Read<Notice>)
    ensures r.Got? ==> |r.rest| <= |body|
    ensures !r.Abandoned?
  {
    var s := ReadName(body);
    if !s.Got? then Ended
    else
      var a := RecvExactly(s.rest, 1);
      if a.Got? then Got(ReplyNotice(s.value, a.value[0]), a.rest) else Ended
  }

  /** The 'B' handler: the cells as a short-length field, then the name of
      the player to move. */
  function BoardBody(body: Bytes): (r: Read<Notice>)
    ensures r.Got? ==> |r.rest| <= |body|
    ensures !r.Abandoned?
  {
    var b := ReadShort(body);
    if !b.Got? then Ended
    else
      var p := ReadName(b.rest);
      if p.Got? then Got(BoardNotice(b.value, p.value), p.rest) else Ended
  }

  /** The 'W' handler: one result octet. */
  function ResultBody(body: Bytes): (r: Read<Notice>)
    ensures r.Got? ==> |r.rest| <= |body|
    ensures !r.Abandoned?
  {
    var c := RecvExactly(body, 1);
    if c.Got? then Got(ResultNotice(c.value[0]), c.rest) else Ended
  }

  /** The 'F' handler: sender, file name (kept as a C string), the ten-octet
      size shifted into a 64-bit register, then the data. */
  function FileBody(body: Bytes): (r: Read<Notice>)
    ensures r.Got? ==> |r.rest| <= |body|
    ensures !r.Abandoned?
  {
    var s := ReadName(body);
    if !s.Got? then Ended
    else
      var f := ReadLong(s.rest);
      if !f.Got? then Ended
      else
        var size := RecvExactly(f.rest, 10);
        if !size.Got? then Ended
        else
          var data := RecvExactly(size.rest, ShiftIn64(size.value));
          if data.Got? then Got(FileNotice(s.value, CutAtNul(f.value), data.value), data.rest) else Ended
  }

  /** The 'O' handler: sender, a 4-octet size (`ntohl`), then the object. */
  function ObjectBody(body: Bytes): (r: Read<Notice>)
    ensures r.Got? ==> |r.rest| <= |body|
    ensures !r.Abandoned?
  {
    var s := ReadName(body);
    if !s.Got? then Ended
    else
      var size := RecvExactly(s.rest, 4);
      if !size.Got? then Ended
      else
        var data := RecvExactly(size.rest, Value(size.value));
        if data.Got? then Got(ObjectNotice(s.value, data.value), data.rest) else Ended
  }

  /** The frames the receiving thread reads until the connection ends, up
      to and including an 'E' or 'X' frame, after which it stops. */
  function Receive(input: Bytes): seq<Notice>
    decreases |input|
  {
    var r := ReadNotice(input);
    if !r.Got? then []
    else if r.value.ErrorNotice? || r.value.CloseNotice? then [r.value]
    else [r.value] + Receive(r.rest)
  }

  /** The frame's tag is read first and selects the handler. */
  lemma NoticeTagSplit(tag: byte, body: Bytes)
    ensures ReadNotice([tag] + body) == NoticeBody(tag, body)
  {
    RecvOnceConcat([tag], body);
  }

  // Which handler runs for each tag.

  lemma ChatCases(body: Bytes)
    ensures NoticeBody(ErrorFrameTag, body) == ErrorBody(body)
    ensures NoticeBody(BroadcastFrameTag, body) == MessageBody(BroadcastFrameTag, body)
    ensures NoticeBody(PrivateFrameTag, body) == MessageBody(PrivateFrameTag, body)
  {
  }

  lemma ListCase(body: Bytes)
    ensures NoticeBody(ListFrameTag, body) == ListBodyRead(body)
  {
  }

  lemma FileCase(body: Bytes)
    ensures NoticeBody(FileFrameTag, body) == FileBody(body)
  {
  }

  lemma ObjectCase(body: Bytes)
    ensures NoticeBody(ObjectFrameTag, body) == ObjectBody(body)
  {
  }

  lemma InviteCases(body: Bytes)
    ensures NoticeBody(InviteTag, body) == InviteBody(body)
    ensures NoticeBody(ReplyTag, body) == ReplyBody(body)
  {
    assert NoticeBody(InviteTag, body) == GameBody(InviteTag, body);
    assert NoticeBody(ReplyTag, body) == GameBody(ReplyTag, body);
  }

  lemma BoardCase(body: Bytes)
    ensures NoticeBody(BoardFrameTag, body) == BoardBody(body)
  {
    assert NoticeBody(BoardFrameTag, body) == GameBody(BoardFrameTag, body);
  }

  lemma ResultCase(body: Bytes)
    ensures NoticeBody(ResultFrameTag, body) == ResultBody(body)
  {
    assert NoticeBody(ResultFrameTag, body) == GameBody(ResultFrameTag, body);
  }

  /** 'E': the error text reads back octet for octet, and the receiving
      thread stops there, whatever follows. */
  lemma ErrorNoticeRoundTrip(msg: Bytes, rest: Bytes)
    requires |msg| < 0x100_0000
    ensures ReadNotice(BuildError(msg) + rest) == Got(ErrorNotice(msg), rest)
    ensures Receive(BuildError(msg) + rest) == [ErrorNotice(msg)]
  {
    Concat3([ErrorFrameTag], LongField(msg), rest);
    NoticeTagSplit(ErrorFrameTag, LongField(msg) + rest);
    ChatCases(LongField(msg) + rest);
    ReadLongRoundTrip(msg, rest);
  }

  /** 'M' and 'T': the sender (as a C string) and the exact text. */
  lemma MessageNoticeRoundTrip(sender: Bytes, msg: Bytes, rest: Bytes)
    requires |sender| < 0x1_0000 && |msg| < 0x100_0000
    ensures ReadNotice(BuildBroadcast(sender, msg) + rest) == Got(BroadcastNotice(CutAtNul(sender), msg), rest)
    ensures ReadNotice(BuildToClient(sender, msg) + rest) == Got(PrivateNotice(CutAtNul(sender), msg), rest)
  {
    var body := ShortField(sender) + (LongField(msg) + rest);
    Concat4([BroadcastFrameTag], ShortField(sender), LongField(msg), rest);
    Concat4([PrivateFrameTag], ShortField(sender), LongField(msg), rest);
    NoticeTagSplit(BroadcastFrameTag, body);
    ChatCases(body);
    NoticeTagSplit(PrivateFrameTag, body);
    ChatCases(body);
    ReadShortRoundTrip(sender, LongField(msg) + rest);
    ReadLongRoundTrip(msg, rest);
  }

  /** Reading a list body built from `names`, then anything, gives `names`
      first. */
  lemma {:induction false} ParseNamesOfListBody(names: seq<Bytes>, rest: Bytes)
    requires forall n | n in names :: |n| < 0x1_0000
    ensures ParseNames(ListBody(names) + rest) == names + ParseNames(rest)
  {
    if names != [] {
      var init := names[..|names| - 1];
      var last := names[|names| - 1];
      var tail := ShortField(last) + rest;
      assert names == init + [last];
      assert ListBody(names) == ListBody(init) + ShortField(last);
      assert ListBody(names) + rest == ListBody(init) + tail;
      assert forall n | n in init :: n in names;
      ParseNamesOfListBody(init, tail);
      ParseNamesOfShortField(last, rest);
      assert init + ([last] + ParseNames(rest)) == names + ParseNames(rest);
    } else {
      assert ListBody(names) + rest == rest;
    }
  }

  /** One short-length field at the front is one name. */
  lemma ParseNamesOfShortField(n: Bytes, rest: Bytes)
    requires |n| < 0x1_0000
    ensures ParseNames(ShortField(n) + rest) == [n] + ParseNames(rest)
  {
    var buf := ShortField(n) + rest;
    assert buf == BigEndian(|n|, 2) + (n + rest);
    assert buf[..2] == BigEndian(|n|, 2);
    BigEndianRoundTrip(|n|, 2);
    assert buf[2..2 + |n|] == n;
    assert buf[2 + |n|..] == rest;
  }

  /** `parseListResponse` inverts the 'L' body the server builds. */
  lemma ListBodyRoundTrip(names: seq<Bytes>)
    requires forall n | n in names :: |n| < 0x1_0000
    ensures ParseNames(ListBody(names)) == names
  {
    ParseNamesOfListBody(names, []);
    assert ListBody(names) + [] == ListBody(names);
  }

  /** The names read are the leading entries of the buffer, laid out again
      exactly as they were: nothing past the buffer's end is read. */
  lemma {:induction false} ParsedNamesArePrefix(buf: Bytes)
    ensures |ListBody(ParseNames(buf))| <= |buf|
    ensures ListBody(ParseNames(buf)) == buf[..|ListBody(ParseNames(buf))|]
    decreases |buf|
  {
    if |buf| >= 2 {
      var n := Value(buf[..2]);
      if 2 + n <= |buf| {
        var tail := buf[2 + n..];
        var name := buf[2..2 + n];
        ParsedNamesArePrefix(tail);
        assert ParseNames(buf) == [name] + ParseNames(tail);
        ListBodyCons(name, ParseNames(tail));
        FirstEntryIsField(buf, n);
        PrefixAfterField(ShortField(name), tail, ListBody(ParseNames(tail)));
      } else {
        assert ListBody([]) == buf[..0];
      }
    } else {
      assert ListBody([]) == buf[..0];
    }
  }

  /** A complete first entry is the short-length field of its name. */
  lemma FirstEntryIsField(buf: Bytes, n: nat)
    requires |buf| >= 2 && n == Value(buf[..2]) && 2 + n <= |buf|
    ensures buf == ShortField(buf[2..2 + n]) + buf[2 + n..]
  {
    ValueRoundTrip2(buf[..2]);
    assert buf == buf[..2] + (buf[2..2 + n] + buf[2 + n..]);
  }

  /** A prefix of `tail` after the same leading field is a prefix of the
      whole. */
  lemma PrefixAfterField(field: Bytes, tail: Bytes, p: Bytes)
    requires |p| <= |tail| && p == tail[..|p|]
    ensures field + p == (field + tail)[..|field + p|]
  {
  }

  /** The value of a two-octet count, as the reader computes it. */
  lemma ValueOfTwo(hi: byte, lo: byte)
    ensures Value([hi, lo]) == hi as int * 256 + lo as int
  {
    assert [hi, lo][..1] == [hi];
    assert [hi][..0] == [];
  }

  /** A two-octet field is the big-endian form of its own value. */
  lemma ValueRoundTrip2(f: Bytes)
    requires |f| == 2
    ensures BigEndian(Value(f), 2) == f
  {
    assert f[..1][..0] == [];
    assert Value(f) == f[0] as int * 256 + f[1] as int;
  }

  /** A list body with one more name in front. */
  lemma {:induction false} ListBodyCons(n: Bytes, names: seq<Bytes>)
    ensures ListBody([n] + names) == ShortField(n) + ListBody(names)
    decreases |names|
  {
    if names == [] {
      assert ListBody([n]) == ListBody([]) + ShortField(n);
    } else {
      var all := [n] + names;
      var init := names[..|names| - 1];
      var last := names[|names| - 1];
      assert all[..|all| - 1] == [n] + init && all[|all| - 1] == last;
      assert ListBody(all) == ListBody([n] + init) + ShortField(last);
      assert ListBody(names) == ListBody(init) + ShortField(last);
      ListBodyCons(n, init);
      assert (ShortField(n) + ListBody(init)) + ShortField(last)
          == ShortField(n) + (ListBody(init) + ShortField(last));
    }
  }

  /** 'L': the list frame built from names that fit short-length fields,
      with a body that fits its 2-octet total, reads back as the names in
      the order the server wrote them. */
  lemma ListNoticeRoundTrip(names: seq<Bytes>, rest: Bytes)
    requires forall n | n in names :: |n| < 0x1_0000
    requires |ListBody(names)| < 0x1_0000
    ensures ReadNotice(ListFrame(names) + rest) == Got(ListNotice(names), rest)
  {
    var body := ListBody(names);
    Concat3([ListFrameTag], ShortField(body), rest);
    NoticeTagSplit(ListFrameTag, ShortField(body) + rest);
    ListCase(ShortField(body) + rest);
    ReadShortRoundTrip(body, rest);
    ListBodyRoundTrip(names);
  }

  /** `parseListResponse(buf, len)`: the `pos` cursor walks the first `len`
      octets and pushes each complete entry. */
  method ParseListResponse(buf: array<byte>, len: nat) returns (clients: seq<Bytes>)
    requires len <= buf.Length
    ensures clients == ParseNames(buf[..len])
  {
    var data := buf[..len];
    clients := [];
    var pos := 0;
    ghost var unread := data;
    while pos < |data|
      invariant pos <= |data| && unread == data[pos..]
      invariant clients + ParseNames(unread) == ParseNames(data)
      decreases |data| - pos
    {
      if pos + 2 > |data| {
        assert ParseNames(unread) == [];
        assert clients + [] == clients;
        return;
      }
      var nickLen: nat := data[pos] as int * 256 + data[pos + 1] as int;
      var next := pos + 2 + nickLen;
      ParseNamesStep(data, pos, nickLen);
      if next > |data| {
        assert clients + [] == clients;
        return;
      }
      var nick := data[pos + 2..next];
      ghost var later := data[next..];
      assert (clients + [nick]) + ParseNames(later) == clients + ([nick] + ParseNames(later));
      clients := clients + [nick];
      pos := next;
      unread := later;
    }
    assert ParseNames(unread) == [];
    assert clients + [] == clients;
  }

  /** One entry of the cursor loop, stated on the octets from `start`. */
  lemma ParseNamesStep(data: Bytes, start: nat, n: nat)
    requires start + 2 <= |data|
    requires n == data[start] as int * 256 + data[start + 1] as int
    ensures start + 2 + n > |data| ==> ParseNames(data[start..]) == []
    ensures start + 2 + n <= |data| ==>
      ParseNames(data[start..]) == [data[start + 2..start + 2 + n]] + ParseNames(data[start + 2 + n..])
  {
    var e := data[start..];
    assert e[..2] == [data[start], data[start + 1]];
    ValueOfTwo(data[start], data[start + 1]);
    if start + 2 + n <= |data| {
      assert e[2..2 + n] == data[start + 2..start + 2 + n];
      assert e[2 + n..] == data[start + 2 + n..];
    }
  }

  /** 'F': sender, file name and the data octet for octet, for every
      64-bit size and whatever the two undefined octets hold. */
  lemma FileNoticeRoundTrip(sender: Bytes, filename: Bytes, data: Bytes, high: Bytes, rest: Bytes)
    requires |sender| < 0x1_0000 && |filename| < 0x100_0000
    requires |high| == 2 && |data| < 0x1_0000_0000_0000_0000
    ensures ReadNotice(BuildFile(sender, filename, data, high) + rest)
         == Got(FileNotice(CutAtNul(sender), CutAtNul(filename), data), rest)
  {
    var size := FileSizeField(|data|, high);
    var tail := size + (data + rest);
    var body := ShortField(sender) + (LongField(filename) + tail);
    Concat6([FileFrameTag], ShortField(sender), LongField(filename), size, data, rest);
    NoticeTagSplit(FileFrameTag, body);
    FileCase(body);
    ReadShortRoundTrip(sender, LongField(filename) + tail);
    ReadLongRoundTrip(filename, tail);
    RecvExactlyConcat(size, data + rest);
    FileSizeRoundTrip(|data|, high);
    RecvExactlyConcat(data, rest);
  }

  /** 'O': sender and the object octets, for every object under 4 GiB. */
  lemma ObjectNoticeRoundTrip(sender: Bytes, data: Bytes, rest: Bytes)
    requires |sender| < 0x1_0000 && |data| < 0x1_0000_0000
    ensures ReadNotice(BuildObject(sender, data) + rest) == Got(ObjectNotice(CutAtNul(sender), data), rest)
  {
    var size := BigEndian(|data|, 4);
    var body := ShortField(sender) + (size + (data + rest));
    Concat5([ObjectFrameTag], ShortField(sender), size, data, rest);
    NoticeTagSplit(ObjectFrameTag, body);
    ObjectCase(body);
    ReadShortRoundTrip(sender, size + (data + rest));
    RecvExactlyConcat(size, data + rest);
    assert Pow256(4) == 0x1_0000_0000;
    BigEndianRoundTrip(|data|, 4);
    RecvExactlyConcat(data, rest);
  }

  /** 'J' from the server: the inviter's name. */
  lemma InviteNoticeRoundTrip(name: Bytes, rest: Bytes)
    requires |name| < 0x1_0000
    ensures ReadNotice(BuildGameRequest(name) + rest) == Got(InviteNotice(CutAtNul(name)), rest)
  {
    Concat3([InviteTag], ShortField(name), rest);
    NoticeTagSplit(InviteTag, ShortField(name) + rest);
    InviteCases(ShortField(name) + rest);
    ReadShortRoundTrip(name, rest);
  }

  /** 'j' from the server: the invitee's name and the answer octet. */
  lemma ReplyNoticeRoundTrip(name: Bytes, accepted: bool, rest: Bytes)
    requires |name| < 0x1_0000
    ensures ReadNotice(BuildGameResponse(name, accepted) + rest)
         == Got(ReplyNotice(CutAtNul(name), if accepted then Yes else No), rest)
  {
    var answer: byte := if accepted then Yes else No;
    Concat4([ReplyTag], ShortField(name), [answer], rest);
    ReplyFrameRead(ShortField(name) + ([answer] + rest));
    ReplyBodyRoundTrip(name, answer, rest);
  }

  /** A frame tagged 'j' goes to the reply handler. */
  lemma ReplyFrameRead(body: Bytes)
    ensures ReadNotice([ReplyTag] + body) == ReplyBody(body)
  {
    NoticeTagSplit(ReplyTag, body);
    InviteCases(body);
  }

  lemma ReplyBodyRoundTrip(name: Bytes, answer: byte, rest: Bytes)
    requires |name| < 0x1_0000
    ensures ReplyBody(ShortField(name) + ([answer] + rest)) == Got(ReplyNotice(CutAtNul(name), answer), rest)
  {
    ReadShortRoundTrip(name, [answer] + rest);
    RecvExactlyConcat([answer], rest);
  }

  /** 'B': the nine cells and the name of the player to move. */
  lemma BoardNoticeRoundTrip(board: Bytes, currentPlayer: Bytes, rest: Bytes)
    requires |board| < 0x1_0000 && |currentPlayer| < 0x1_0000
    ensures ReadNotice(BuildBoard(board, currentPlayer) + rest)
         == Got(BoardNotice(board, CutAtNul(currentPlayer)), rest)
  {
    Concat4([BoardFrameTag], ShortField(board), ShortField(currentPlayer), rest);
    NoticeTagSplit(BoardFrameTag, ShortField(board) + (ShortField(currentPlayer) + rest));
    BoardCase(ShortField(board) + (ShortField(currentPlayer) + rest));
    ReadShortRoundTrip(board, ShortField(currentPlayer) + rest);
    ReadShortRoundTrip(currentPlayer, rest);
  }

  /** 'W' and 'X': the result octet, and the close frame that stops the
      receiving thread. */
  lemma ShortNoticeRoundTrip(code: byte, rest: Bytes)
    ensures ReadNotice(BuildGameResult(code) + rest) == Got(ResultNotice(code), rest)
    ensures ReadNotice(BuildClose() + rest) == Got(CloseNotice, rest)
    ensures Receive(BuildClose() + rest) == [CloseNotice]
  {
    assert BuildGameResult(code) + rest == [ResultFrameTag] + ([code] + rest);
    NoticeTagSplit(ResultFrameTag, [code] + rest);
    ResultCase([code] + rest);
    RecvExactlyConcat([code], rest);
    NoticeTagSplit(CloseFrameTag, rest);
  }

  /** The suffix the client inserts into a received file's name. */
  const DestSuffix: Bytes := Ascii("_dest")

  const Dot: byte := 0x2E // '.'

  /** `find_last_of(".")`: the index of the last '.', if any. */
  function LastDot(s: Bytes): (r: Option<nat>)
    ensures r.Some? ==> r.value < |s| && s[r.value] == Dot && forall j | r.value < j < |s| :: s[j] != Dot
    ensures r.None? ==> Dot !in s
  {
    if s == [] then None
    else if s[|s| - 1] == Dot then Some(|s| - 1)
    else LastDot(s[..|s| - 1])
  }

  /** The name the 'F' handler saves a received file under: "_dest" just
      before the last '.', or at the end when there is none. */
  function SavedName(filename: Bytes): Bytes {
    match LastDot(filename)
    case Some(k) => filename[..k] + DestSuffix + filename[k..]
    case None => filename + DestSuffix
  }

  /** The saved name is the original with exactly the five octets of
      "_dest" inserted; the extension (from the last '.') is kept and is
      still the extension of the saved name, and taking "_dest" out again
      gives the original name back. */
  lemma SavedNameKeepsExtension(filename: Bytes)
    ensures |SavedName(filename)| == |filename| + 5
    ensures LastDot(filename).None? ==>
      && SavedName(filename) == filename + DestSuffix
      && LastDot(SavedName(filename)).None?
    ensures LastDot(filename).Some? ==>
      var k := LastDot(filename).value;
      var saved := SavedName(filename);
      && saved[k..k + 5] == DestSuffix
      && saved[..k] + saved[k + 5..] == filename
      && LastDot(saved) == Some(k + 5)
      && saved[k + 5..] == filename[k..]
  {
    DestSuffixHasNoDot();
    match LastDot(filename)
    case None =>
      assert Dot !in SavedName(filename);
    case Some(k) =>
      SavedNameAroundDot(filename, k);
  }

  lemma DestSuffixHasNoDot()
    ensures |DestSuffix| == 5 && Dot !in DestSuffix
  {
    assert DestSuffix == [0x5F, 0x64, 0x65, 0x73, 0x74];
  }

  /** The insertion before the last dot, split at `k`. */
  lemma SavedNameAroundDot(filename: Bytes, k: nat)
    requires LastDot(filename) == Some(k)
    ensures var saved := SavedName(filename);
      && |saved| == |filename| + 5
      && saved[..k] == filename[..k]
      && saved[k..k + 5] == DestSuffix
      && saved[k + 5..] == filename[k..]
      && saved[..k] + saved[k + 5..] == filename
      && LastDot(saved) == Some(k + 5)
  {
    DestSuffixHasNoDot();
    var saved := filename[..k] + DestSuffix + filename[k..];
    assert saved[..k] == filename[..k];
    assert saved[k..k + 5] == DestSuffix;
    assert saved[k + 5..] == filename[k..];
    assert filename[..k] + filename[k..] == filename;
    LastDotIs(saved, k + 5);
  }

  /** A '.' with no '.' after it is the last dot. */
  lemma LastDotIs(s: Bytes, k: nat)
    requires k < |s| && s[k] == Dot
    requires forall j | k < j < |s| :: s[j] != Dot
    ensures LastDot(s) == Some(k)
  {
  }

  /** The accept predicate: the typed answer is exactly one of "y", "Y",
      "s", "S". */
  predicate Accepts(response: Bytes) {
    response == [0x79] || response == [0x59] || response == [0x73] || response == [0x53] // "y" "Y" "s" "S"
  }

  /** The answer octet the server reads is 'y' exactly when the user typed
      one of the four accepted letters, and 'n' otherwise. */
  lemma InvitationAnswer(sender: Bytes, response: Bytes, rest: Bytes)
    requires 0 < |sender| < 0x1_0000
    ensures var read := ReadUdpRequest(BuildGameResponse(sender, Accepts(response)) + rest);
      && read.Got? && read.value.Reply? && read.value.inviter == CutAtNul(sender)
      && (read.value.response == Yes <==>
            |response| == 1 && response[0] in {0x79, 0x59, 0x73, 0x53})
      && (read.value.response != Yes ==> read.value.response == No)
  {
    RequestLaws.ReplyRoundTrip(sender, Accepts(response), rest);
    AcceptsSingleLetter(response);
  }

  /** The four accepted answers are the one-letter answers 'y', 'Y', 's'
      and 'S'. */
  lemma AcceptsSingleLetter(response: Bytes)
    ensures Accepts(response) <==> |response| == 1 && response[0] in {0x79, 0x59, 0x73, 0x53}
  {
    if |response| == 1 && response[0] in {0x79, 0x59, 0x73, 0x53} {
      assert response == [response[0]];
    }
  }

  /** What the 'W' handler announces. */
  datatype GameResult = Win | Lose | Tie | OpponentLeft

  /** The result-code mapping: '1', '0', '2', '3'; any other octet is
      announced as nothing. */
  function ResultOf(code: byte): Option<GameResult> {
    if code == 0x31 then Some(Win)
    else if code == 0x30 then Some(Lose)
    else if code == 0x32 then Some(Tie)
    else if code == 0x33 then Some(OpponentLeft)
    else None
  }

  /** The four codes the server sends are announced as the outcome the
      server meant, each read back from its 'W' frame; no other code is
      announced. */
  lemma ResultCodesAgree(code: byte, rest: Bytes)
    ensures ReadNotice(BuildGameResult(code) + rest) == Got(ResultNotice(code), rest)
    ensures ResultOf(GameSession.WinCode) == Some(Win)
    ensures ResultOf(GameSession.LossCode) == Some(Lose)
    ensures ResultOf(GameSession.DrawCode) == Some(Tie)
    ensures ResultOf(GameSession.LeftCode) == Some(OpponentLeft)
    ensures ResultOf(code).Some? <==>
      code in {GameSession.WinCode, GameSession.LossCode, GameSession.DrawCode, GameSession.LeftCode}
  {
    ShortNoticeRoundTrip(code, rest);
  }

  /** The 'B' handler's guard: a position is sent only when it is 0 to 8. */
  function MovePacket(position: int): Option<Bytes> {
    if 0 <= position <= 8 then Some(PositionPacket(position)) else None
  }

  /** A position the client sends reaches the server unchanged, and the
      server never rejects it as out of range. */
  lemma MovePacketInRange(position: int, g: TicTacToe.Game, mover: Bytes, rest: Bytes)
    requires |g.board| == 9
    ensures MovePacket(position).Some? <==> 0 <= position < 9
    ensures MovePacket(position).Some? ==>
      && ReadUdpRequest(MovePacket(position).value + rest) == Got(Move(position), rest)
      && TicTacToe.Play(g, mover, position) != TicTacToe.Rejected(TicTacToe.InvalidPosition)
  {
    if 0 <= position <= 8 {
      RequestLaws.MoveRoundTrip(position, rest);
      TicTacToe.PlayRejections(g, mover, position);
    }
  }
}
