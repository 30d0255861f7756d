/** Field layouts shared by every frame, and the reads that take them off a
    connection. A connection's input is the byte string still to arrive;
    a read consumes a prefix of it. */
module Wire {
  import opened Bytes

  /** Short-length field: 2-octet big-endian count (`htons(s.size())`),
      then the octets. Lengths of 65536 and more wrap in the count. */
  function ShortField(s: Bytes): Bytes {
    BigEndian(|s|, 2) + s
  }

  /** Long-length field: the low 24 bits of the length, big-endian, then
      the octets. */
  function LongField(s: Bytes): Bytes {
    BigEndian(|s|, 3) + s
  }

  /** The 10-octet file-size field. Its first two octets come from shifting
      a 64-bit size by 72 and 64 bits, which C++ leaves undefined; they are
      the parameter `high`. The remaining eight are the size, big-endian. */
  function FileSizeField(size: nat, high: Bytes): (r: Bytes)
    requires |high| == 2
    ensures |r| == 10
  {
    high + BigEndian(size, 8)
  }

  /** Outcome of reading from a connection: the value and the input after
      it; or the end of the session through the handler's `break`; or the
      end of the session through an early `return` that skips the
      handler's cleanup. */
  datatype Read<+T> = Got(value: T, rest: Bytes) | Ended | Abandoned

  /** One checked `recv(sock, buf, n, 0) <= 0` call that expects `n`
      octets. A request for zero octets returns 0, which the check treats
      as a closed connection. */
  function RecvOnce(input: Bytes, n: nat): (r: Read<Bytes>)
    ensures r.Got? <==> 0 < n <= |input|
    ensures r.Got? ==> input == r.value + r.rest && |r.value| == n
    ensures !r.Got? ==> r.Ended?
  {
    if 0 < n <= |input| then Got(input[..n], input[n..]) else Ended
  }

  /** `n` octets taken by a receive loop (`while (got < n)`), or by an
      unchecked `recv` on the client side. Zero octets need no call. */
  function RecvExactly(input: Bytes, n: nat): (r: Read<Bytes>)
    ensures r.Got? <==> n <= |input|
    ensures r.Got? ==> input == r.value + r.rest && |r.value| == n
    ensures !r.Got? ==> r.Ended?
  {
    if n <= |input| then Got(input[..n], input[n..]) else Ended
  }

  /** A name the servers read: short-length field taken with checked
      `recv` calls, kept as a C string (`string(dbuf)`). */
  function RecvName(input: Bytes): Read<Bytes> {
    var len := RecvOnce(input, 2);
    if !len.Got? then Ended
    else
      var body := RecvOnce(len.rest, Value(len.value));
      if !body.Got? then Ended else Got(CutAtNul(body.value), body.rest)
  }

  /** A long-length field the servers read with checked `recv` calls and
      keep octet for octet (`string(buf, len)`). */
  function RecvLong(input: Bytes): Read<Bytes> {
    var len := RecvOnce(input, 3);
    if !len.Got? then Ended
    else RecvOnce(len.rest, Value(len.value))
  }

  /** A short-length field read with unchecked calls, kept octet for octet. */
  function ReadShort(input: Bytes): Read<Bytes> {
    var len := RecvExactly(input, 2);
    if !len.Got? then Ended else RecvExactly(len.rest, Value(len.value))
  }

  /** A long-length field read with unchecked calls or a receive loop. */
  function ReadLong(input: Bytes): Read<Bytes> {
    var len := RecvExactly(input, 3);
    if !len.Got? then Ended else RecvExactly(len.rest, Value(len.value))
  }

  /** A short-length name read with unchecked calls, kept as a C string. */
  function ReadName(input: Bytes): Read<Bytes> {
    var r := ReadShort(input);
    if r.Got? then Got(CutAtNul(r.value), r.rest) else Ended
  }

  /** Splitting a concatenation at the first part's length gives the parts. */
  lemma SplitConcat(a: Bytes, b: Bytes)
    ensures (a + b)[..|a|] == a && (a + b)[|a|..] == b
  {
  }

  // Regrouping a concatenation to the right, so that each read can take
  // its field off the front.
  lemma Concat3(a: Bytes, b: Bytes, c: Bytes)
    ensures a + b + c == a + (b + c)
  {
  }

  lemma Concat4(a: Bytes, b: Bytes, c: Bytes, d: Bytes)
    ensures a + b + c + d == a + (b + (c + d))
  {
  }

  lemma Concat5(a: Bytes, b: Bytes, c: Bytes, d: Bytes, e: Bytes)
    ensures a + b + c + d + e == a + (b + (c + (d + e)))
  {
    Concat4(a, b, c, d + e);
  }

  lemma Concat6(a: Bytes, b: Bytes, c: Bytes, d: Bytes, e: Bytes, f: Bytes)
    ensures a + b + c + d + e + f == a + (b + (c + (d + (e + f))))
  {
    Concat5(a, b, c, d, e + f);
  }

  /** A checked read of a nonempty prefix returns exactly that prefix. */
  lemma RecvOnceConcat(a: Bytes, b: Bytes)
    requires a != []
    ensures RecvOnce(a + b, |a|) == Got(a, b)
  {
    SplitConcat(a, b);
  }

  /** A receive loop over a prefix returns exactly that prefix. */
  lemma RecvExactlyConcat(a: Bytes, b: Bytes)
    ensures RecvExactly(a + b, |a|) == Got(a, b)
  {
    SplitConcat(a, b);
  }

  /** The count of a short-length field reads back as the field's length,
      and what follows the count is the body then the rest. */
  lemma ShortFieldSplits(s: Bytes, rest: Bytes)
    requires |s| < 0x1_0000
    ensures RecvExactly(ShortField(s) + rest, 2) == Got(BigEndian(|s|, 2), s + rest)
    ensures Value(BigEndian(|s|, 2)) == |s|
    ensures RecvExactly(s + rest, |s|) == Got(s, rest)
  {
    assert ShortField(s) + rest == BigEndian(|s|, 2) + (s + rest);
    SplitConcat(BigEndian(|s|, 2), s + rest);
    SplitConcat(s, rest);
    BigEndianRoundTrip(|s|, 2);
  }

  /** A server reads back the name a short-length field carries, cut at its
      first NUL. */
  lemma RecvNameRoundTrip(s: Bytes, rest: Bytes)
    requires 0 < |s| < 0x1_0000
    ensures RecvName(ShortField(s) + rest) == Got(CutAtNul(s), rest)
  {
    ShortFieldSplits(s, rest);
  }

  /** An empty name makes the server ask `recv` for zero octets, which
      ends the session. */
  lemma RecvEmptyNameEnds(rest: Bytes)
    ensures RecvName(ShortField([]) + rest) == Ended
  {
    BigEndianRoundTrip(0, 2);
    assert ShortField([]) + rest == BigEndian(0, 2) + rest;
    SplitConcat(BigEndian(0, 2), rest);
  }

  /** A server reads back a nonempty long-length field octet for octet. */
  lemma RecvLongRoundTrip(s: Bytes, rest: Bytes)
    requires 0 < |s| < 0x100_0000
    ensures RecvLong(LongField(s) + rest) == Got(s, rest)
  {
    var input := LongField(s) + rest;
    assert input == BigEndian(|s|, 3) + (s + rest);
    SplitConcat(BigEndian(|s|, 3), s + rest);
    SplitConcat(s, rest);
    BigEndianRoundTrip(|s|, 3);
  }

  /** An empty long-length field ends a server session the same way. */
  lemma RecvEmptyLongEnds(rest: Bytes)
    ensures RecvLong(LongField([]) + rest) == Ended
  {
    BigEndianRoundTrip(0, 3);
    assert LongField([]) + rest == BigEndian(0, 3) + rest;
    SplitConcat(BigEndian(0, 3), rest);
  }

  /** A client reads back any short-length field that fits 16 bits. */
  lemma ReadShortRoundTrip(s: Bytes, rest: Bytes)
    requires |s| < 0x1_0000
    ensures ReadShort(ShortField(s) + rest) == Got(s, rest)
    ensures ReadName(ShortField(s) + rest) == Got(CutAtNul(s), rest)
  {
    ShortFieldSplits(s, rest);
  }

  /** A client reads back any long-length field that fits 24 bits. */
  lemma ReadLongRoundTrip(s: Bytes, rest: Bytes)
    requires |s| < 0x100_0000
    ensures ReadLong(LongField(s) + rest) == Got(s, rest)
  {
    var input := LongField(s) + rest;
    assert input == BigEndian(|s|, 3) + (s + rest);
    SplitConcat(BigEndian(|s|, 3), s + rest);
    SplitConcat(s, rest);
    BigEndianRoundTrip(|s|, 3);
  }

  /** The value the readers' ten-step `fsize = (fsize << 8) | b` loop
      computes in a 64-bit register: the value of the first `|s|` octets
      modulo 2^64. Written as the loop's recurrence; see `DecodeFileSize`. */
  function ShiftIn64(s: Bytes): (v: nat)
    ensures v < 0x1_0000_0000_0000_0000
  {
    if s == [] then 0 else (ShiftIn64(s[..|s| - 1]) * 256 + s[|s| - 1]) % 0x1_0000_0000_0000_0000
  }

  /** The recurrence keeps the value modulo 2^64. */
  lemma {:induction false} ShiftIn64IsValueMod(s: Bytes)
    ensures ShiftIn64(s) == Value(s) % 0x1_0000_0000_0000_0000
  {
    if s != [] {
      var p := s[..|s| - 1];
      ShiftIn64IsValueMod(p);
      ShiftKeepsMod(Value(p), s[|s| - 1]);
    }
  }

  /** Shifting in an octet commutes with reducing modulo 2^64. */
  lemma ShiftKeepsMod(v: nat, d: nat)
    ensures ((v % 0x1_0000_0000_0000_0000) * 256 + d) % 0x1_0000_0000_0000_0000
         == (v * 256 + d) % 0x1_0000_0000_0000_0000
  {
    var m := 0x1_0000_0000_0000_0000;
    var q := v / m;
    var r := v % m;
    assert v == m * q + r;
    assert v * 256 + d == (r * 256 + d) + m * (256 * q);
    AddMultipleMod(r * 256 + d, 256 * q);
  }

  lemma {:induction false} AddMultipleMod(x: nat, k: nat)
    ensures (x + 0x1_0000_0000_0000_0000 * k) % 0x1_0000_0000_0000_0000 == x % 0x1_0000_0000_0000_0000
  {
    if k > 0 {
      AddMultipleMod(x, k - 1);
      assert x + 0x1_0000_0000_0000_0000 * k == (x + 0x1_0000_0000_0000_0000 * (k - 1)) + 0x1_0000_0000_0000_0000;
    }
  }

  /** The ten-octet size decodes to its last eight octets, whatever the two
      octets the undefined shifts wrote: they are shifted out of the 64-bit
      register. */
  lemma FileSizeFieldDecodes(field: Bytes)
    requires |field| == 10
    ensures ShiftIn64(field) == Value(field[2..])
  {
    ShiftIn64IsValueMod(field);
    assert field == field[..2] + field[2..];
    ValueOfConcat(field[..2], field[2..]);
    assert Pow256(8) == 0x1_0000_0000_0000_0000;
    DropHigh64(Value(field[..2]), Value(field[2..]));
  }

  /** Octets above the low 64 bits vanish modulo 2^64. */
  lemma DropHigh64(hi: nat, lo: nat)
    requires lo < 0x1_0000_0000_0000_0000
    ensures (hi * 0x1_0000_0000_0000_0000 + lo) % 0x1_0000_0000_0000_0000 == lo
  {
  }

  /** The reader's loop, as the servers and the client run it on the size
      field: proved to compute the field's last eight octets. */
  method DecodeFileSize(field: Bytes) returns (fsize: nat)
    requires |field| == 10
    ensures fsize == Value(field[2..])
    ensures fsize < 0x1_0000_0000_0000_0000
  {
    fsize := 0;
    var i := 0;
    while i < 10
      invariant 0 <= i <= 10
      invariant fsize == ShiftIn64(field[..i])
    {
      assert field[..i + 1][..i] == field[..i];
      fsize := (fsize * 256 + field[i]) % 0x1_0000_0000_0000_0000;
      i := i + 1;
    }
    assert field[..10] == field;
    FileSizeFieldDecodes(field);
  }

  /** Round trip of the size field for every 64-bit size. */
  lemma FileSizeRoundTrip(size: nat, high: Bytes)
    requires |high| == 2 && size < 0x1_0000_0000_0000_0000
    ensures Value(FileSizeField(size, high)[2..]) == size
    ensures ShiftIn64(FileSizeField(size, high)) == size
  {
    var f := FileSizeField(size, high);
    assert f[2..] == BigEndian(size, 8);
    assert Pow256(8) == 0x1_0000_0000_0000_0000;
    BigEndianRoundTrip(size, 8);
    FileSizeFieldDecodes(f);
  }
}
