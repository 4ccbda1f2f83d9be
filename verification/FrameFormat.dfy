/** The frame header of the packet stream is in the byte order of webrtc/base/byteorder.h. */
module FrameFormat {
  import opened Arith
  import opened ByteOrder
  import Framing

  /** The length field is the 16-bit length in network byte order, whatever the host's own order. */
  lemma HeaderIsNetworkOrder(n: nat, hostBig: bool)
    ensures Framing.Header(n) == Written(n % Framing.MAX_PACKET_SIZE, 2, Network, hostBig)
  {
    hide BigEndian;
    TwoBytes(n % Framing.MAX_PACKET_SIZE);
    LowDigits(n);
  }

  lemma TwoBytes(v: nat)
    ensures BigEndian(v, 2) == [v / 256 % 256, v % 256]
  {
    assert BigEndian(v / 256, 1) == BigEndian(v / 256 / 256, 0) + [v / 256 % 256];
    assert BigEndian(v, 2) == BigEndian(v / 256, 1) + [v % 256];
  }

  /** What the receiver reads from the field is what the sender put in, modulo 2^16. */
  lemma FieldReadsBack(n: nat, hostBig: bool)
    ensures Read(Framing.Header(n), Network, hostBig) == n % Framing.MAX_PACKET_SIZE
         == Framing.FieldValue(Framing.Header(n))
  {
    hide BigEndian, FromBigEndian, Written, Read;
    HeaderIsNetworkOrder(n, hostBig);
    LowDigits(n);
    assert Pow256(1) == 256 && Pow256(2) == 65536 by { assert Pow256(0) == 1; }
    IntegerRoundTrip(n % Framing.MAX_PACKET_SIZE, 2, Network, hostBig);
  }
}
