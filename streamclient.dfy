/** The chat client (Sockets/client.cpp) on its receiving side: the
    `receiveMessages` loop reads 'E', 'M', 'T' and 'L' frames and skips
    any other tag octet. Its packets ('n', 'm', 't', 'l') are the ones in
    `Frames`. Every buffer it reads goes to `cout` as a C string, so what
    it prints stops at the buffer's first NUL octet.

    Two of its handlers do not fit the chat server's frames:
    - 'M' reads the three octets after the tag as the text's length, while
      the server's 'M' frame starts with the sender as a short-length
      field (`MisreadBroadcast`);
    - 'L' prints the whole body as one C string, while the body starts
      with the first name's 2-octet length, whose high octet is NUL for
      any name under 256 octets (`ListShownAsWritten`).
    `ReadShownAsWritten` is the reader as written. `ReadShown` reads the
    sender first and splits the list into its names, as the game-enabled
    client does, and reads back every frame the chat server builds. */
module StreamClient {
  import opened Bytes
  import opened Wire
  import opened Frames
  import UdpClient

  /** What the client prints for one frame. */
  datatype Shown =
    | ShownError(text: Bytes)
    | ShownText(text: Bytes)                      // an 'M' frame as the reader as written takes it
    | ShownBroadcast(sender: Bytes, text: Bytes)  // an 'M' frame read sender first
    | ShownPrivate(sender: Bytes, text: Bytes)
    | ShownList(text: Bytes)                      // the 'L' body printed as one C string
    | ShownNames(names: seq<Bytes>)               // the 'L' body split into its names
    | Skipped(tag: byte)

  /** The handlers both readers share: 'E', 'T', and any other tag skipped. */
  function CommonBody(tag: byte, body: Bytes): (r: Read<Shown>)
    requires tag != BroadcastFrameTag && tag != ListFrameTag
    ensures r.Got? ==> |r.rest| <= |body|
  {
    if tag == ErrorFrameTag then
      var m := ReadLong(body);
      if m.Got? then Got(ShownError(CutAtNul(m.value)), m.rest) else Ended
    else if tag == PrivateFrameTag then
      var s := ReadName(body);
      if !s.Got? then Ended
      else
        var m := ReadLong(s.rest);
        if m.Got? then Got(ShownPrivate(s.value, CutAtNul(m.value)), m.rest) else Ended
    else Got(Skipped(tag), body)
  }

  /** The 'M' handler as written: a 3-octet length, then that many octets. */
  function BroadcastAsWritten(body: Bytes): (r: Read<Shown>)
    ensures r.Got? ==> |r.rest| <= |body|
  {
    var m := ReadLong(body);
    if m.Got? then Got(ShownText(CutAtNul(m.value)), m.rest) else Ended
  }

  /** The 'M' handler reading the layout the server sends: the sender,
      then the text. */
  function BroadcastBody(body: Bytes): (r: Read<Shown>)
    ensures r.Got? ==> |r.rest| <= |body|
  {
    var s := ReadName(body);
    if !s.Got? then Ended
    else
      var m := ReadLong(s.rest);
      if m.Got? then Got(ShownBroadcast(s.value, CutAtNul(m.value)), m.rest) else Ended
  }

  /** The 'L' handler as written: the body printed as one C string. */
  function ListAsWritten(body: Bytes): (r: Read<Shown>)
    ensures r.Got? ==> |r.rest| <= |body|
  {
    var all := ReadShort(body);
    if all.Got? then Got(ShownList(CutAtNul(all.value)), all.rest) else Ended
  }

  /** The 'L' handler splitting the body into names, as `parseListResponse`
      does in the game-enabled client. */
  function ListNames(body: Bytes): (r: Read<Shown>)
    ensures r.Got? ==> |r.rest| <= |body|
  {
    var all := ReadShort(body);
    if all.Got? then Got(ShownNames(UdpClient.ParseNames(all.value)), all.rest) else Ended
  }

  /** One iteration of `receiveMessages` as written. */
  function ReadShownAsWritten(input: Bytes): (r: Read<Shown>)
    ensures r.Got? ==> |r.rest| < |input|
  {
    var t := RecvOnce(input, 1);
    if !t.Got? then Ended
    else if t.value[0] == BroadcastFrameTag then BroadcastAsWritten(t.rest)
    else if t.value[0] == ListFrameTag then ListAsWritten(t.rest)
    else CommonBody(t.value[0], t.rest)
  }

  /** One iteration of `receiveMessages` with the 'M' handler reading the
      sender first and the 'L' handler splitting the names. */
  function ReadShown(input: Bytes): (r: Read<Shown>)
    ensures r.Got? ==> |r.rest| < |input|
  {
    var t := RecvOnce(input, 1);
    if !t.Got? then Ended
    else if t.value[0] == BroadcastFrameTag then BroadcastBody(t.rest)
    else if t.value[0] == ListFrameTag then ListNames(t.rest)
    else CommonBody(t.value[0], t.rest)
  }

  // Which handler runs for each tag.

  lemma AsWrittenTagSplit(tag: byte, body: Bytes)
    ensures ReadShownAsWritten([tag] + body)
         == if tag == BroadcastFrameTag then BroadcastAsWritten(body)
            else if tag == ListFrameTag then ListAsWritten(body)
            else CommonBody(tag, body)
  {
    RecvOnceConcat([tag], body);
  }

  lemma TagSplit(tag: byte, body: Bytes)
    ensures ReadShown([tag] + body)
         == if tag == BroadcastFrameTag then BroadcastBody(body)
            else if tag == ListFrameTag then ListNames(body)
            else CommonBody(tag, body)
  {
    RecvOnceConcat([tag], body);
  }

  /** The text of "alice" broadcasting "hi", and what the reader as written
      prints of it. */
  const Alice: Bytes := [0x61, 0x6C, 0x69, 0x63, 0x65]
  const Hi: Bytes := [0x68, 0x69]
  const Lice: Bytes := [0x6C, 0x69, 0x63, 0x65]

  /** The frame `M 00 05 'alice' 00 00 02 'hi'` makes the reader as written
      take `00 05 'a'` as a length of 1377 octets and print "lice": the
      octets up to the NUL that starts the text's length field. Reading
      exactly the requested count, as this model does, it also takes 1368
      octets beyond the frame and does not complete with fewer. */
  lemma MisreadBroadcast(rest: Bytes)
    ensures ReadShownAsWritten(BuildBroadcast(Alice, Hi) + rest).Got? <==> |rest| >= 1368
    ensures |rest| >= 1368 ==>
      ReadShownAsWritten(BuildBroadcast(Alice, Hi) + rest) == Got(ShownText(Lice), rest[1368..])
  {
    var body := ShortField(Alice) + LongField(Hi) + rest;
    assert BuildBroadcast(Alice, Hi) + rest == [BroadcastFrameTag] + body;
    AsWrittenTagSplit(BroadcastFrameTag, body);
    CountOfAliceFrame(body, rest);
  }

  /** What the 'M' handler as written makes of the body of alice's frame. */
  lemma CountOfAliceFrame(body: Bytes, rest: Bytes)
    requires body == ShortField(Alice) + LongField(Hi) + rest
    ensures BroadcastAsWritten(body).Got? <==> |rest| >= 1368
    ensures |rest| >= 1368 ==> BroadcastAsWritten(body) == Got(ShownText(Lice), rest[1368..])
  {
    AliceFields();
    assert body == AliceFrameBody + rest;
    AliceCount();
    assert body[..3] == AliceFrameBody[..3];
    assert ReadLong(body) == RecvExactly(body[3..], 1377);
    if |rest| >= 1368 {
      AliceText(rest);
      assert body[3..][..1377] == body[3..1380] && body[3..][1377..] == body[1380..];
    }
  }

  /** The body of alice's frame, octet by octet. */
  const AliceFrameBody: Bytes := [0x00, 0x05, 0x61, 0x6C, 0x69, 0x63, 0x65, 0x00, 0x00, 0x02, 0x68, 0x69]

  lemma AliceFields()
    ensures ShortField(Alice) + LongField(Hi) == AliceFrameBody
  {
    assert BigEndian(5, 2) == [0x00, 0x05];
    assert BigEndian(2, 3) == [0x00, 0x00, 0x02];
  }

  /** Its first three octets, taken as a text length, make 1377. */
  lemma AliceCount()
    ensures Value(AliceFrameBody[..3]) == 1377
  {
    var count: Bytes := [0x00, 0x05, 0x61];
    var two: Bytes := [0x00, 0x05];
    var one: Bytes := [0x00];
    assert AliceFrameBody[..3] == count;
    assert count[..2] == two && two[..1] == one && one[..0] == [];
  }

  /** The 1377 octets taken after the count print as "lice", and the reader
      resumes 1368 octets past the end of the frame. */
  lemma AliceText(rest: Bytes)
    requires |rest| >= 1368
    ensures CutAtNul((AliceFrameBody + rest)[3..1380]) == Lice
    ensures (AliceFrameBody + rest)[1380..] == rest[1368..]
  {
    var tail: Bytes := [0x00, 0x02, 0x68, 0x69] + rest[..1368];
    assert (AliceFrameBody + rest)[3..1380] == Lice + [Nul] + tail;
    CutAtNulAtFirstNul(Lice, tail);
  }

  /** 'E', read alike by both readers: the error text up to its first NUL,
      which is all of it for the texts the chat server sends. */
  lemma ErrorRoundTrip(msg: Bytes, rest: Bytes)
    requires |msg| < 0x100_0000
    ensures ReadShown(BuildError(msg) + rest) == Got(ShownError(CutAtNul(msg)), rest)
    ensures ReadShownAsWritten(BuildError(msg) + rest) == Got(ShownError(CutAtNul(msg)), rest)
    ensures Nul !in msg ==> ReadShown(BuildError(msg) + rest) == Got(ShownError(msg), rest)
  {
    Concat3([ErrorFrameTag], LongField(msg), rest);
    TagSplit(ErrorFrameTag, LongField(msg) + rest);
    AsWrittenTagSplit(ErrorFrameTag, LongField(msg) + rest);
    ReadLongRoundTrip(msg, rest);
    if Nul !in msg {
      CutAtNulKeepsPlainText(msg);
    }
  }

  /** 'M' and 'T' read sender first: the sender and the text, each printed
      up to its first NUL. */
  lemma MessageRoundTrip(sender: Bytes, msg: Bytes, rest: Bytes)
    requires |sender| < 0x1_0000 && |msg| < 0x100_0000
    ensures ReadShown(BuildBroadcast(sender, msg) + rest)
         == Got(ShownBroadcast(CutAtNul(sender), CutAtNul(msg)), rest)
    ensures ReadShown(BuildToClient(sender, msg) + rest)
         == Got(ShownPrivate(CutAtNul(sender), CutAtNul(msg)), rest)
  {
    Concat4([BroadcastFrameTag], ShortField(sender), LongField(msg), rest);
    Concat4([PrivateFrameTag], ShortField(sender), LongField(msg), rest);
    MessageFramesRead(ShortField(sender) + (LongField(msg) + rest));
    ReadShortRoundTrip(sender, LongField(msg) + rest);
    ReadLongRoundTrip(msg, rest);
  }

  /** 'M' and 'T' go to their handlers. */
  lemma MessageFramesRead(body: Bytes)
    ensures ReadShown([BroadcastFrameTag] + body) == BroadcastBody(body)
    ensures ReadShown([PrivateFrameTag] + body) == CommonBody(PrivateFrameTag, body)
  {
    TagSplit(BroadcastFrameTag, body);
    TagSplit(PrivateFrameTag, body);
  }

  /** The 'T' handler as written already reads the server's layout. */
  lemma PrivateAsWritten(sender: Bytes, msg: Bytes, rest: Bytes)
    requires |sender| < 0x1_0000 && |msg| < 0x100_0000
    ensures ReadShownAsWritten(BuildToClient(sender, msg) + rest)
         == Got(ShownPrivate(CutAtNul(sender), CutAtNul(msg)), rest)
  {
    Concat4([PrivateFrameTag], ShortField(sender), LongField(msg), rest);
    AsWrittenTagSplit(PrivateFrameTag, ShortField(sender) + (LongField(msg) + rest));
    ReadShortRoundTrip(sender, LongField(msg) + rest);
    ReadLongRoundTrip(msg, rest);
  }

  /** 'L' as written prints the body as one C string. That string is empty
      whenever the first name is under 256 octets, because the body then
      starts with a NUL: the high octet of that name's length. */
  lemma ListShownAsWritten(names: seq<Bytes>, rest: Bytes)
    requires |ListBody(names)| < 0x1_0000
    ensures ReadShownAsWritten(ListFrame(names) + rest) == Got(ShownList(CutAtNul(ListBody(names))), rest)
    ensures names != [] && |names[0]| < 0x100 ==>
      ReadShownAsWritten(ListFrame(names) + rest) == Got(ShownList([]), rest)
  {
    var body := ListBody(names);
    Concat3([ListFrameTag], ShortField(body), rest);
    AsWrittenTagSplit(ListFrameTag, ShortField(body) + rest);
    ReadShortRoundTrip(body, rest);
    if names != [] && |names[0]| < 0x100 {
      FirstNameLengthStartsWithNul(names);
    }
  }

  /** A list body whose first name is under 256 octets starts with NUL. */
  lemma FirstNameLengthStartsWithNul(names: seq<Bytes>)
    requires names != [] && |names[0]| < 0x100
    ensures CutAtNul(ListBody(names)) == []
  {
    var n := names[0];
    assert [n] + names[1..] == names;
    UdpClient.ListBodyCons(n, names[1..]);
    ShortLengthStartsWithNul(|n|);
    assert ListBody(names)[0] == BigEndian(|n|, 2)[0];
  }

  /** The 2-octet length of a name under 256 octets starts with NUL. */
  lemma ShortLengthStartsWithNul(k: nat)
    requires k < 0x100
    ensures BigEndian(k, 2)[0] == Nul
  {
    assert BigEndian(k, 2) == BigEndian(k / 256, 1) + [k % 256];
    assert BigEndian(k / 256, 1) == BigEndian(0, 0) + [0];
  }

  /** 'L' split into names: the list of names the server sent, in order. */
  lemma ListRoundTrip(names: seq<Bytes>, rest: Bytes)
    requires forall n | n in names :: |n| < 0x1_0000
    requires |ListBody(names)| < 0x1_0000
    ensures ReadShown(ListFrame(names) + rest) == Got(ShownNames(names), rest)
  {
    var body := ListBody(names);
    Concat3([ListFrameTag], ShortField(body), rest);
    TagSplit(ListFrameTag, ShortField(body) + rest);
    ReadShortRoundTrip(body, rest);
    UdpClient.ListBodyRoundTrip(names);
  }

  /** 'X', which this client has no handler for, is skipped by both readers. */
  lemma CloseSkipped(rest: Bytes)
    ensures ReadShown(BuildClose() + rest) == Got(Skipped(CloseFrameTag), rest)
    ensures ReadShownAsWritten(BuildClose() + rest) == Got(Skipped(CloseFrameTag), rest)
  {
    TagSplit(CloseFrameTag, rest);
    AsWrittenTagSplit(CloseFrameTag, rest);
  }
}
