/** Known answers of the codecs: bytes and texts written out. */
module KnownAnswers {
  import opened Bytes
  import opened Wrappers
  import Utf8
  import Idna
  import Inet4
  import Inet6
  import Packet

  /** One scalar value for each length of encoding. */
  lemma KnownEncodings()
    ensures Utf8.Encode(0x24) == [0x24] && Utf8.Encode(0xA2) == [0xC2, 0xA2]
    ensures Utf8.Encode(0x20AC) == [0xE2, 0x82, 0xAC] && Utf8.Encode(0x1_0348) == [0xF0, 0x90, 0x8D, 0x88]
    ensures !Utf8.Scalar(0xD800) && !Utf8.Scalar(0xDFFF) && !Utf8.Scalar(0x11_0000) && Utf8.Scalar(0x10_FFFF)
  {
  }

  /** "xn--" */
  lemma KnownPrefix()
    ensures Idna.ACE == [0x78, 0x6E, 0x2D, 0x2D]
  {
  }

  lemma KnownQuads()
    ensures Inet4.Text4([192, 0, 2, 10]) == "192.0.2.10" && Inet4.Text4([0, 7, 99, 255]) == "0.7.99.255"
  {
    hide Inet4.Text4, Inet4.Dec;
    Fronts(192, 0, 2, 10);
    Fronts(0, 7, 99, 255);
    KnownNumbers();
  }

  lemma KnownNumbers()
    ensures Inet4.Dec(192) == "192" && Inet4.Dec(255) == "255" && Inet4.Dec(99) == "99" && Inet4.Dec(10) == "10"
    ensures Inet4.Dec(0) == "0" && Inet4.Dec(2) == "2" && Inet4.Dec(7) == "7"
  {
  }

  lemma Fronts(a: byte, b: byte, c: byte, d: byte)
    ensures Inet4.Text4([a, b, c, d]) == Inet4.Dec(a) + "." + Inet4.Dec(b) + "." + Inet4.Dec(c) + "." + Inet4.Dec(d)
  {
    hide Inet4.Dec, Inet4.Dotted;
    DottedFront([a, b, c]);
    DottedFront([a, b]);
    DottedFront([a]);
    assert [a, b, c, d][..3] == [a, b, c] && [a, b, c][..2] == [a, b] && [a, b][..1] == [a] && [a][..0] == [];
    assert [] + Inet4.Dec(a) + "." == Inet4.Dec(a) + ".";
  }

  lemma DottedFront(vals: seq<byte>)
    requires vals != []
    ensures Inet4.Dotted(vals) == Inet4.Dotted(vals[..|vals| - 1]) + Inet4.Dec(vals[|vals| - 1]) + "."
    ensures |vals| == 1 ==> Inet4.Dotted(vals[..0]) == []
  {
    hide Inet4.Dec;
  }

  /** Digits of either case are read, and lower-case ones printed. */
  lemma KnownHexDigits()
    ensures Inet6.HexValue('9') == Some(9) && Inet6.HexValue('a') == Some(10) && Inet6.HexValue('f') == Some(15)
    ensures Inet6.HexValue('A') == Some(10) && Inet6.HexValue('F') == Some(15)
    ensures Inet6.HexValue('g') == None && Inet6.HexValue('G') == None && Inet6.HexValue('/') == None && Inet6.HexValue(':') == None
    ensures Inet6.Hex(0xABC) == "abc" && Inet6.Hex(0xF00D) == "f00d" && Inet6.Hex(0x10) == "10"
  {
  }

  /** A packet: head flag, kind and payload size, little-endian, and the payload. */
  lemma KnownPacket()
    ensures Packet.Encode(0x01020304, Packet.Packet(0x05060708, [0xAA, 0xBB])) == [4, 3, 2, 1, 8, 7, 6, 5, 2, 0, 0, 0, 0xAA, 0xBB]
    ensures Packet.Load([4, 3, 2, 1, 8, 7, 6, 5], 4) == 0x05060708
  {
  }
}
