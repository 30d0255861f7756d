/** Octets as they travel in every frame of the chat protocol: fixed-width
    big-endian integers, the C-string view of a received buffer, and ASCII
    literals. */
module Bytes {

  /** One octet of a std::string or char buffer, read as unsigned. */
  type byte = x: int | 0 <= x < 0x100

  type Bytes = seq<byte>

  datatype Option<+T> = None | Some(value: T)

  datatype Result<+T, +E> = Success(value: T) | Failure(error: E)

  /** The NUL octet that ends a C string. */
  const Nul: byte := 0

  /** 256 to the power `w`: one more than the largest value `w` octets hold. */
  function Pow256(w: nat): (p: nat)
    ensures p >= 1
    ensures w >= 1 ==> p >= 256
  {
    if w == 0 then 1 else 256 * Pow256(w - 1)
  }

  /** The `w` low-order octets of `n`, most significant first. This is what
      `htons`, `htonl` and the hand-written `(len >> 16) & 0xFF` sequences
      put on the wire: bits above the field's width are dropped. */
  function BigEndian(n: nat, w: nat): (r: Bytes)
    ensures |r| == w
  {
    if w == 0 then [] else BigEndian(n / 256, w - 1) + [n % 256]
  }

  /** The number a big-endian field denotes, accumulated most significant
      octet first, as every reader in the protocol does (`(v << 8) | b`). */
  function Value(bs: Bytes): (v: nat)
    ensures v < Pow256(|bs|)
  {
    if bs == [] then 0 else Value(bs[..|bs| - 1]) * 256 + bs[|bs| - 1]
  }

  /** Reading back a big-endian field gives the encoded number whenever it
      fits the field: the round trip of every length field. */
  lemma {:induction false} BigEndianRoundTrip(n: nat, w: nat)
    requires n < Pow256(w)
    ensures Value(BigEndian(n, w)) == n
  {
    if w > 0 {
      var hi := BigEndian(n / 256, w - 1);
      assert BigEndian(n, w) == hi + [n % 256];
      assert (hi + [n % 256])[..|hi|] == hi;
      assert n / 256 < Pow256(w - 1);
      BigEndianRoundTrip(n / 256, w - 1);
    }
  }

  /** Appending one octet shifts the value up by eight bits. */
  lemma ValueOfSnoc(a: Bytes, b: Bytes)
    requires b != []
    ensures Value(a + b) == Value(a + b[..|b| - 1]) * 256 + b[|b| - 1]
  {
    assert (a + b)[..|a + b| - 1] == a + b[..|b| - 1];
  }

  lemma MulShift(x: int, p: int)
    ensures (x * p) * 256 == x * (p * 256)
  {
  }

  /** A big-endian string splits into a high part scaled by the width of the
      low part. */
  lemma {:induction false} ValueOfConcat(a: Bytes, b: Bytes)
    ensures Value(a + b) == Value(a) * Pow256(|b|) + Value(b)
  {
    if b == [] {
      assert a + b == a;
    } else {
      var b' := b[..|b| - 1];
      ValueOfSnoc(a, b);
      ValueOfConcat(a, b');
      MulShift(Value(a), Pow256(|b'|));
    }
  }

  /** The string a C++ `std::string(buf)` constructor makes of a received
      buffer: everything before the first NUL octet. */
  function CutAtNul(s: Bytes): (r: Bytes)
    ensures |r| <= |s| && r == s[..|r|]
    ensures Nul !in r
    ensures |r| < |s| ==> s[|r|] == Nul
  {
    if s == [] || s[0] == Nul then [] else [s[0]] + CutAtNul(s[1..])
  }

  /** The C-string view of a buffer stops at its first NUL, whatever
      follows it. */
  lemma CutAtNulAtFirstNul(p: Bytes, q: Bytes)
    requires Nul !in p
    ensures CutAtNul(p + [Nul] + q) == p
  {
    var s := p + [Nul] + q;
    assert s[..|p|] == p && s[|p|] == Nul;
  }

  /** A string without NUL octets survives the C-string view unchanged. */
  lemma CutAtNulKeepsPlainText(s: Bytes)
    requires Nul !in s
    ensures CutAtNul(s) == s
  {
  }

  /** The octets of an ASCII literal. */
  function Ascii(s: string): (r: Bytes)
    requires forall i | 0 <= i < |s| :: s[i] as int < 0x100
    ensures |r| == |s|
    ensures forall i | 0 <= i < |s| :: r[i] == s[i] as int
  {
    seq(|s|, i requires 0 <= i < |s| => s[i] as int)
  }

  /** An octet written as a character literal. */
  function Octet(c: char): byte
    requires c as int < 0x100
  {
    c as int
  }
}
