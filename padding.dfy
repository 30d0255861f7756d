/** `completePacket` (SocketsUDP/server.cpp): pads a packet with '#'
    octets until it is one octet longer than `maxLengthPacket`. The loop
    counter is a `uint64_t` compared with the `int` bound, so a negative
    bound converts to a value near 2^64; a non-negative bound is required.
    No other code calls it. */
module Padding {
  import opened Bytes

  /** The padding octet '#'. */
  const Pad: byte := 0x23

  /** The padded packet: the packet, then '#' octets up to
      `maxLength + 1` octets in all. */
  function Padded(packet: Bytes, maxLength: nat): (r: Bytes)
    ensures |r| > maxLength && |r| >= |packet|
    ensures r[..|packet|] == packet
    ensures forall k | |packet| <= k < |r| :: r[k] == Pad
  {
    if |packet| > maxLength then packet else packet + seq(maxLength + 1 - |packet|, _ => Pad)
  }

  /** `completePacket(packet, maxLengthPacket)`: the loop appends one '#'
      per value of the counter from the packet's length up to the bound. */
  method CompletePacket(packet: Bytes, maxLength: int) returns (padded: Bytes)
    requires maxLength >= 0
    ensures padded == Padded(packet, maxLength)
    ensures |padded| == if |packet| > maxLength then |packet| else maxLength + 1
    ensures padded[..|packet|] == packet
    ensures forall k | |packet| <= k < |padded| :: padded[k] == Pad
  {
    padded := packet;
    var len := |packet|;
    while len <= maxLength
      invariant |padded| == (if |packet| > maxLength then |packet| else len)
      invariant |packet| <= len <= (if |packet| > maxLength then |packet| else maxLength + 1)
      invariant padded[..|packet|] == packet
      invariant forall k | |packet| <= k < |padded| :: padded[k] == Pad
    {
      padded := padded + [Pad];
      len := len + 1;
    }
    PaddedIs(packet, maxLength, padded);
  }

  /** A packet kept as the prefix, '#' after it and the padded length
      determine the padded packet. */
  lemma PaddedIs(packet: Bytes, maxLength: nat, padded: Bytes)
    requires |padded| == if |packet| > maxLength then |packet| else maxLength + 1
    requires padded[..|packet|] == packet
    requires forall k | |packet| <= k < |padded| :: padded[k] == Pad
    ensures padded == Padded(packet, maxLength)
  {
    if |packet| > maxLength {
      assert padded == padded[..|packet|];
    } else {
      var p := Padded(packet, maxLength);
      assert |p| == |padded|;
      forall k | 0 <= k < |p| ensures p[k] == padded[k] {
        if k < |packet| {
          assert padded[k] == padded[..|packet|][k];
        }
      }
    }
  }

  /** Padding an already padded packet to the same bound changes nothing. */
  lemma PaddedIdempotent(packet: Bytes, maxLength: nat)
    ensures Padded(Padded(packet, maxLength), maxLength) == Padded(packet, maxLength)
  {
  }
}
