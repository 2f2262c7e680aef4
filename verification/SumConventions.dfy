/** How the headers the code builds are checksummed, and how that differs from the server's rewrites. */
module SumConventions {
  import opened Bytes
  import opened Checksum
  import opened ChecksumLaws
  import opened CStrings
  import opened Packet

  // ----- the checksum of a fresh header

  lemma {:induction false} WordSumOfConcat(a: seq<byte>, b: seq<byte>)
    requires |a| % 2 == 0
    ensures WordSum(a + b) == WordSum(a) + WordSum(b)
    decreases |a|
  {
    if |a| == 0 {
      assert a + b == b;
    } else {
      assert (a + b)[2..] == a[2..] + b;
      WordSumOfConcat(a[2..], b);
    }
  }

  /** Exchanging source and destination leaves the checksum of `set_ip` as it was. */
  lemma ExchangeKeepsIpSum(a: uint32, b: uint32, ipProtocol: byte, payloadSize: byte)
    ensures Get16(IpHeader(a, b, ipProtocol, payloadSize), 10) == Get16(IpHeader(b, a, ipProtocol, payloadSize), 10)
  {
    var h, g := IpUnsummed(a, b, ipProtocol, payloadSize), IpUnsummed(b, a, ipProtocol, payloadSize);
    hide HostOrder, CksumOf, WordSum, Swap16;
    var front := h[..12];
    assert h == front + (HostOrder(a) + HostOrder(b)) && g == front + (HostOrder(b) + HostOrder(a));
    WordSumOfConcat(front, HostOrder(a) + HostOrder(b));
    WordSumOfConcat(front, HostOrder(b) + HostOrder(a));
    WordSumOfConcat(HostOrder(a), HostOrder(b));
    WordSumOfConcat(HostOrder(b), HostOrder(a));
    AccumulatorNeverWraps(h);
    AccumulatorNeverWraps(g);
  }

  // ----- two checksum conventions

  /** The ten words of an IP header. */
  lemma WordSumOf20(h: seq<byte>)
    requires |h| == 20
    ensures WordSum(h) == Join16(h[1], h[0]) + Join16(h[3], h[2]) + Join16(h[5], h[4]) + Join16(h[7], h[6])
                        + Join16(h[9], h[8]) + Join16(h[11], h[10]) + Join16(h[13], h[12]) + Join16(h[15], h[14])
                        + Join16(h[17], h[16]) + Join16(h[19], h[18])
  {
    var g := h[10..];
    WordSumOf10(h[..10]);
    WordSumOf10(g);
    assert h == h[..10] + g;
    WordSumOfConcat(h[..10], g);
  }

  lemma WordSumOf10(h: seq<byte>)
    requires |h| == 10
    ensures WordSum(h) == Join16(h[1], h[0]) + Join16(h[3], h[2]) + Join16(h[5], h[4]) + Join16(h[7], h[6])
                        + Join16(h[9], h[8])
  {
    hide WordSum, Join16;
    WordSumStep(h);
    WordSumStep(h[2..]);
    WordSumStep(h[2..][2..]);
    WordSumStep(h[2..][2..][2..]);
    WordSumStep(h[2..][2..][2..][2..]);
    WordSumOfNothing(h[2..][2..][2..][2..][2..]);
  }

  /** The words the handlers swap before summing: length, source and destination. */
  function SwappedWords(p: seq<byte>): nat
    requires |p| >= 26
  {
    Join16(p[9], p[8]) + Join16(p[19], p[18]) + Join16(p[21], p[20]) + Join16(p[23], p[22]) + Join16(p[25], p[24])
  }

  /** What `set_ip` leaves: `htons` of the checksum of the header as stored. */
  predicate SummedAsBuilt(p: seq<byte>)
    requires |p| >= 26
  {
    Get16(p, 16) == Swap16(CksumOf(Put16(p, 16, 0)[6..26]))
  }

  lemma SwappedSum(p: seq<byte>)
    requires |p| >= 26
    ensures (WordSum(NetHeader(p)) - WordSum(Put16(p, 16, 0)[6..26]) - 255 * SwappedWords(p)) % 0xffff == 0
  {
    WordSumOf20(NetHeader(p));
    WordSumOf20(Put16(p, 16, 0)[6..26]);
    hide WordSum, NetHeader, Put16;
    SameResidue(WordSum(NetHeader(p)) - WordSum(Put16(p, 16, 0)[6..26]) - 255 * SwappedWords(p), 0,
                0 - (p[8] as int) - p[18] - p[20] - p[22] - p[24]);
  }

  /** The handlers' checksum convention is not the builder's: rewriting a freshly summed packet to the
      source it already has leaves it unchanged exactly when its length and address words add up to a
      multiple of 257. */
  lemma NeutralRewriteIff(p: seq<byte>)
    requires |p| >= 26 && SummedAsBuilt(p)
    ensures SourceRewritten(p, Get32(p, 18)) == p <==> SwappedWords(p) % 257 == 0
  {
    hide CksumOf, Swap16, WordSum, SwappedWords, NetHeader;
    var built := Put16(p, 16, 0)[6..26];
    PutOwnAddress(p);
    ResummedOnlyIf(p);
    VerifyAcceptsExactly(built, NetHeader(p));
    SwappedSum(p);
    ResidueDifference(WordSum(NetHeader(p)), WordSum(built));
    MultipleOf257(WordSum(NetHeader(p)) - WordSum(built), SwappedWords(p));
    Swap16Involution(CksumOf(built));
    Swap16Involution(CksumOf(NetHeader(p)));
  }

  lemma PutOwnAddress(p: seq<byte>)
    requires |p| >= 26
    ensures Put32(p, 18, Get32(p, 18)) == p
  {
    Digits32(Get32(p, 18), p[18], p[19], p[20], p[21]);
  }

  lemma ResummedOnlyIf(p: seq<byte>)
    requires |p| >= 26
    ensures Resummed(p) == p <==> Get16(p, 16) == Swap16(CksumOf(NetHeader(p)))
  {
    hide CksumOf, Swap16;
    var v := Swap16(CksumOf(NetHeader(p)));
    Digits16(Get16(p, 16), p[16], p[17]);
    assert Get16(Put16(p, 16, v), 16) == v;
    if Get16(p, 16) == v {
      assert Put16(p, 16, v) == p;
    }
  }

  lemma MultipleOf257(x: int, d: nat)
    requires (x - 255 * d) % 0xffff == 0
    ensures x % 0xffff == 0 <==> d % 257 == 0
  {
    var k := (x - 255 * d) / 0xffff;
    if x % 0xffff == 0 {
      assert d == 257 * (x / 0xffff - k);
    }
    if d % 257 == 0 {
      SameResidue(x, 0, k + d / 257);
    }
  }

  /** `set_ip` leaves any packet summed as built. */
  lemma SetIpSumsAsBuilt(p: seq<byte>, dst: uint32, src: uint32, ipProtocol: byte, payloadSize: byte)
    requires |p| >= 26
    ensures SummedAsBuilt(WithIp(p, dst, src, ipProtocol, payloadSize))
  {
    hide CksumOf, Swap16;
    var q := IpFields(p, dst, src, ipProtocol, payloadSize);
    var sum := Swap16(CksumOf(q[6..26]));
    assert Put16(Put16(q, 16, sum), 16, 0) == q;
  }

  /** So every packet the builders make is summed as built. */
  lemma PlainPacketSummedAsBuilt(src: uint32, dst: uint32, ipProtocol: byte, payload: cstring, flags: byte)
    ensures var p := PlainPacket(src, dst, ipProtocol, payload, flags);
            && SummedAsBuilt(p)
            && p[6..16] + [0, 0] + p[18..26] == IpUnsummed(src, dst, ipProtocol, 128)
  {
    hide TcpHeader, Clip, IpHeader;
    var p := PlainPacket(src, dst, ipProtocol, payload, flags);
    var h := IpUnsummed(src, dst, ipProtocol, 128);
    assert p[6..26] == IpHeader(src, dst, ipProtocol, 128);
    HeaderSummedAsBuilt(p, src, dst, ipProtocol, 128);
  }

  lemma HeaderSummedAsBuilt(p: seq<byte>, src: uint32, dst: uint32, ipProtocol: byte, payloadSize: byte)
    requires |p| >= 26 && p[6..26] == IpHeader(src, dst, ipProtocol, payloadSize)
    ensures SummedAsBuilt(p)
    ensures p[6..16] + [0, 0] + p[18..26] == IpUnsummed(src, dst, ipProtocol, payloadSize)
  {
    hide CksumOf, Swap16, HostOrder;
    var h, g := IpUnsummed(src, dst, ipProtocol, payloadSize), p[6..26];
    var sum := Swap16(CksumOf(h));
    assert g == Put16(h, 10, sum);
    assert p[16] == g[10] && p[17] == g[11];
    assert Put16(p, 16, 0)[6..26] == h;
  }

  /** A packet the client or the destination builds survives a rewrite to its own source unchanged
      exactly when 148 and its four address words add up to a multiple of 257. */
  lemma NeutralRewriteOfBuiltIff(src: uint32, dst: uint32, payload: cstring, flags: byte)
    ensures var p := PlainPacket(src, dst, TCP, payload, flags);
            && Get32(p, 18) == src
            && (SourceRewritten(p, src) == p <==> (148 + WordSum(HostOrder(src) + HostOrder(dst))) % 257 == 0)
  {
    var p := PlainPacket(src, dst, TCP, payload, flags);
    PlainPacketSummedAsBuilt(src, dst, TCP, payload, flags);
    var h := IpUnsummed(src, dst, TCP, 128);
    assert p[6..16] + [0, 0] + p[18..26] == h;
    hide PlainPacket, CksumOf, HostOrder;
    SwappedWordsOf(p, h, src, dst);
    NeutralRewriteIff(p);
  }

  lemma SwappedWordsOf(p: seq<byte>, h: seq<byte>, src: uint32, dst: uint32)
    requires |p| >= 26 && p[6..16] + [0, 0] + p[18..26] == h && h == IpUnsummed(src, dst, TCP, 128)
    ensures SwappedWords(p) == 148 + WordSum(HostOrder(src) + HostOrder(dst))
    ensures Get32(p, 18) == src
  {
    var s, d := HostOrder(src), HostOrder(dst);
    assert h[12..16] == s && h[16..20] == d;
    assert p[8] == h[2] && p[9] == h[3];
    assert p[18] == h[12] && p[19] == h[13] && p[20] == h[14] && p[21] == h[15];
    assert p[22] == h[16] && p[23] == h[17] && p[24] == h[18] && p[25] == h[19];
    hide HostOrder, WordSum, Join16;
    var a := s + d;
    WordSumStep(a);
    WordSumStep(a[2..]);
    WordSumStep(a[2..][2..]);
    WordSumStep(a[2..][2..][2..]);
    WordSumOfNothing(a[2..][2..][2..][2..]);
  }

  /** A built IP header, checked as stored, verifies exactly when its word sum is a multiple of 257. */
  lemma BuiltHeaderVerifiesIff(src: uint32, dst: uint32, ipProtocol: byte, payloadSize: byte)
    ensures CksumOf(IpHeader(src, dst, ipProtocol, payloadSize)) == 0xffff
            <==> WordSum(IpUnsummed(src, dst, ipProtocol, payloadSize)) % 257 == 0
  {
    hide CksumOf, WordSum, Swap16, HostOrder;
    DoubleSwapVerifies(IpUnsummed(src, dst, ipProtocol, payloadSize), 10);
  }

  /** A built TCP header, in figures: the port 17350 twice, the flags, and the checksum. */
  lemma TcpHeaderInFigures(flags: byte)
    ensures var sum := 0x7873 - flags as int;
            TcpHeader(flags) == [0x43, 0xc6, 0x43, 0xc6, 0, 0, 0, 0, 0, 0, 0, 0, 0, flags, 0, 0,
                                 sum % 0x100, sum / 0x100, 0, 0]
  {
    hide CksumOf, WordSum, Swap16;
    TcpWordSum(flags);
    AccumulatorNeverWraps(TcpUnsummed(flags));
    Swap16Involution(0x7873 - flags as int);
  }

  lemma TcpWordSum(flags: byte)
    ensures WordSum(TcpUnsummed(flags)) == 0x878c + flags as int
  {
    hide WordSum;
    WordSumOf20(TcpUnsummed(flags));
  }

  /** A built TCP header, checked as stored, verifies for one value of the flags only, and not for the
      two in use. */
  lemma TcpHeaderVerifiesIff(flags: byte)
    ensures CksumOf(TcpHeader(flags)) == 0xffff <==> flags == 252
    ensures CksumOf(TcpHeader(SYN)) != 0xffff && CksumOf(TcpHeader(ACK)) != 0xffff
  {
    hide CksumOf, WordSum, Swap16;
    TcpHeaderVerifiesAt(flags);
    TcpHeaderVerifiesAt(SYN);
    TcpHeaderVerifiesAt(ACK);
  }

  lemma TcpHeaderVerifiesAt(flags: byte)
    ensures CksumOf(TcpHeader(flags)) == 0xffff <==> flags == 252
  {
    hide CksumOf, WordSum, Swap16;
    WordSumOf20(TcpUnsummed(flags));
    DoubleSwapVerifies(TcpUnsummed(flags), 16);
  }

  /** The constant GRE header never verifies. */
  lemma GreHeaderFailsVerification()
    ensures CksumOf(GRE_HEADER) != 0xffff
  {
    var h: seq<byte> := [0x00, 0x01, 0x08, 0x00, 0, 0];
    GreWordSum();
    GreChecksum();
    SwappedConstants();
    hide CksumOf, WordSum, Swap16;
    assert Put16(h, 4, 0xf7fe) == GRE_HEADER;
    DoubleSwapVerifies(h, 4);
  }
}
