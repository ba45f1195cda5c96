/** checksum.c: little-endian 16-bit loads into a 32-bit accumulator, folded at the end.
    Addresses are given by the parity test the code makes; unsigned addition is written with
    its wrap-around, and the methods show that it never wraps. */
module Checksum {
  import opened Bytes
  import opened OnesComplement

  /** Unsigned addition with its wrap-around. */
  function Add32(a: int, b: int): (r: int)
    ensures 0 <= r < TWO32
    ensures 0 <= a + b < TWO32 ==> r == a + b
  {
    (a + b) % TWO32
  }

  function Not32(a: int): int { TWO32 - 1 - a }

  /** *((u16_t *) p) on a little-endian machine. */
  function Load16(data: seq<byte>, p: nat): (w: int)
    requires p + 1 < |data|
    ensures 0 <= w <= M
  {
    Word16(data[p + 1], data[p])
  }

  /** The folding loop, lines 63-67: it ends, with the 16-bit representative. */
  method Fold(accum0: nat) returns (accum: int)
    requires accum0 < TWO32
    ensures accum == Canon(accum0) && 0 <= accum <= M
  {
    accum := accum0;
    while accum / 0x1_0000 != 0
      invariant 0 <= accum <= accum0 && Canon(accum) == Canon(accum0)
      decreases accum
    {
      var h, l := accum / 0x1_0000, accum % 0x1_0000;
      CanonShift(h + l, h);
      assert accum == h + l + h * M;
      accum := Add32(l, h);
    }
    CanonSmall(accum);
  }

  lemma ByteRevHalf(a: int)
    requires 0 <= a <= M
    ensures ByteRev(Not32(a)) / 0x1_0000 == Swap16(M - a)
    ensures ByteRev(a) / 0x1_0000 == Swap16(a)
  {
    hide ByteRev;
    Halves(a);
    Halves(Not32(a));
    ComplementBytes(a / 256, a % 256);
  }

  /** The bytes of the complement are the complements of the bytes. */
  lemma ComplementBytes(h: int, l: int)
    requires 0 <= h < 256 && 0 <= l < 256
    ensures var n := Not32(256 * h + l);
            n % 256 == 255 - l && n / 0x100 % 256 == 255 - h
    ensures (M - (256 * h + l)) % 256 == 255 - l && (M - (256 * h + l)) / 256 == 255 - h
  {
    var n := Not32(256 * h + l);
    assert n == 0x100 * (0xFF_FFFF - h) + (255 - l);
    assert n / 0x100 == 0xFF_FFFF - h;
    assert M - (256 * h + l) == 256 * (255 - h) + (255 - l);
  }

  lemma Halves(w: int)
    requires 0 <= w < TWO32
    ensures ByteRev(w) / 0x1_0000 == w % 256 * 256 + w / 0x100 % 256
  {
    var hi := w % 256 * 256 + w / 0x100 % 256;
    assert ByteRev(w) == hi * 0x1_0000 + (Byte(w, 2) * 0x100 + Byte(w, 3));
  }

  /** Summing little-endian words and swapping the complement of the folded sum gives the
      RFC 1071 checksum. */
  lemma SwappedResult(bs: seq<byte>, total: nat, accum: int)
    requires total == SumLE(bs) && accum == Canon(total) && 0 <= accum <= M
    ensures ByteRev(Not32(accum)) / 0x1_0000 == Rfc1071(bs)
  {
    ByteOrderIndependence(bs);
    OnesSumIsCanon(bs);
    ByteRevHalf(accum);
    SwapIsTimes256(accum);
    SwapTwice(OnesSum(bs));
  }

  /** Without the swap the complement is taken directly. */
  lemma StraightResult(bs: seq<byte>, total: nat, accum: int)
    requires total == Sum(bs) && accum == Canon(total) && 0 <= accum <= M
    ensures Not32(accum) % 0x1_0000 == Rfc1071(bs)
  {
    OnesSumIsCanon(bs);
    assert Not32(accum) == 0xFFFF * 0x1_0000 + (M - accum);
  }

  lemma SwapTwice(x: nat)
    requires x <= M
    ensures Swap16(Swap16(x)) == x && 0 <= Swap16(x) <= M
  {
    assert Swap16(x) / 256 == x % 256 && Swap16(x) % 256 == x / 256;
  }

  /** Lines 53-61 and 111-118: load words from p up to the last byte at end, which is added
      alone when it is left over. */
  method AddWords(data: seq<byte>, p0: nat, end: int, accum0: nat) returns (accum: int)
    requires p0 <= end + 1 <= |data|
    requires accum0 + SumLE(data[p0..end + 1]) < TWO32
    ensures accum == accum0 + SumLE(data[p0..end + 1])
  {
    accum := accum0;
    var p := p0;
    while p < end
      invariant p0 <= p <= end + 1
      invariant accum >= 0 && accum + SumLE(data[p..end + 1]) == accum0 + SumLE(data[p0..end + 1])
    {
      assert data[p..end + 1][2..] == data[p + 2..end + 1];
      accum := Add32(accum, Load16(data, p));
      p := p + 2;
    }
    if p == end {
      accum := Add32(accum, data[p]);
    }
  }

  /** checksum(): any length, either alignment of the first byte.  The empty message is the one
      whose result is not the RFC 1071 checksum. */
  method Checksum(data: seq<byte>, address: int, skip: nat, len: nat) returns (r: int)
    requires skip + len <= |data| && len <= 0xFFFF
    ensures r == if len == 0 then 0 else Rfc1071(data[skip..skip + len])
    ensures r == Rfc1071(data[skip..skip + len]) <==> len != 0
  {
    assert len == 0 ==> Rfc1071(data[skip..skip + len]) == 0xFFFF;
    hide Sum, OnesSum, Rfc1071, Canon, ByteRev, SumLE, Add32, Not32;
    var swap := true;
    var accum := 0;
    var p := skip;
    var end := p + len - 1;
    if len == 0 {
      return 0;
    }
    ghost var bs, stop := data[skip..skip + len], skip + len;
    SumLEBound(bs);
    if (address + p) % 2 != 0 {
      swap := false;
      ShiftedGrouping(bs);
      SumLEBound(bs[1..]);
      accum := Add32(accum, Word16(data[p], 0));
      p := p + 1;
      assert data[p..stop] == bs[1..];
    }
    ghost var total := accum + SumLE(data[p..stop]);
    assert total == if swap then SumLE(bs) else Sum(bs);
    accum := AddWords(data, p, end, accum);
    accum := Fold(accum);
    if swap {
      SwappedResult(bs, total, accum);
      accum := ByteRev(Not32(accum)) / 0x1_0000;
    } else {
      StraightResult(bs, total, accum);
      accum := Not32(accum) % 0x1_0000;
    }
    r := accum;
  }

  /** checksum_ip(): the ten words of the header at offset 14. */
  method ChecksumIp(frame: seq<byte>) returns (r: int)
    requires 34 <= |frame|
    ensures r == Rfc1071(frame[14..34])
  {
    var accum := 0;
    ghost var bs := frame[14..34];
    SumLEBound(bs);
    var i := 14;
    while i < 34
      invariant 14 <= i <= 34 && i % 2 == 0
      invariant accum >= 0 && accum + SumLE(frame[i..34]) == SumLE(bs)
    {
      assert frame[i..34][2..] == frame[i + 2..34];
      accum := Add32(accum, Load16(frame, i));
      i := i + 2;
    }
    accum := Fold(accum);
    SwappedResult(bs, SumLE(bs), accum);
    r := ByteRev(Not32(accum)) / 0x1_0000;
  }

  /** What RFC 768 has summed for the datagram at offset 34, with the given length field: the
      pseudo header (addresses, zero, protocol, length), then the ports, the length field, a
      zero checksum and the data. */
  function UdpCovered(frame: seq<byte>, udplen: int, field: seq<byte>): seq<byte>
    requires 8 <= udplen <= 0xFFFF && |field| == 2 && 34 + udplen <= |frame|
  {
    frame[26..34] + [0, 17, udplen / 256, udplen % 256] + frame[34..38] + field + [0, 0] + frame[42..34 + udplen]
  }

  /** The datagram as it stands, its checksum field taken as zero. */
  function UdpMessage(frame: seq<byte>, udplen: int): seq<byte>
    requires 8 <= udplen <= 0xFFFF && 34 + udplen <= |frame|
  {
    UdpCovered(frame, udplen, frame[38..40])
  }

  function LengthBytes(udplen: int): seq<byte>
    requires 8 <= udplen <= 0xFFFF
  {
    [udplen / 256, udplen % 256]
  }

  /** The length field agrees with the argument; 0 and 65535 are one number in one's
      complement. */
  predicate LengthAgrees(frame: seq<byte>, udplen: int)
    requires 40 <= |frame|
  {
    var field := Word16(frame[38], frame[39]);
    field == udplen || (field == 0 && udplen == 0xFFFF)
  }

  lemma {:induction false} SumLEConcat(a: seq<byte>, b: seq<byte>)
    requires |a| % 2 == 0
    ensures SumLE(a + b) == SumLE(a) + SumLE(b)
  {
    if a == [] {
      assert a + b == b;
    } else {
      SumLEConcat(a[2..], b);
      assert (a + b)[2..] == a[2..] + b;
    }
  }

  lemma LeadingPair(x: byte, y: byte, rest: seq<byte>)
    ensures SumLE([x, y] + rest) == Word16(y, x) + SumLE(rest)
    ensures Sum([x, y] + rest) == Word16(x, y) + Sum(rest)
  {
    assert ([x, y] + rest)[2..] == rest;
  }

  lemma TwoBytes(f: seq<byte>)
    requires |f| == 2
    ensures SumLE(f) == Word16(f[1], f[0]) && Sum(f) == Word16(f[0], f[1])
  {
    LeadingPair(f[0], f[1], []);
    assert f == [f[0], f[1]] + [];
  }

  lemma ThreePairs(a: byte, b: byte, c: byte, d: byte, e: byte, f: byte, rest: seq<byte>)
    ensures SumLE([a, b, c, d, e, f] + rest) == Word16(b, a) + Word16(d, c) + Word16(f, e) + SumLE(rest)
  {
    hide SumLE, Sum;
    LeadingPair(e, f, rest);
    LeadingPair(c, d, [e, f] + rest);
    LeadingPair(a, b, [c, d] + ([e, f] + rest));
    assert [a, b, c, d, e, f] + rest == [a, b] + ([c, d] + ([e, f] + rest));
  }

  /** Two concatenations at once. */
  lemma Joined(a: seq<byte>, b: seq<byte>)
    requires |a| % 2 == 0
    ensures SumLE(a + b) == SumLE(a) + SumLE(b) && Sum(a + b) == Sum(a) + Sum(b)
  {
    SumLEConcat(a, b);
    SumConcat(a, b);
  }

  /** The pseudo header's zero, protocol and length. */
  lemma PseudoWords(u: int)
    requires 8 <= u <= 0xFFFF
    ensures var h: seq<byte> := [0, 17, u / 256, u % 256];
            SumLE(h) == 0x1100 + Swap16(u) && Sum(h) == 17 + u
  {
    var h: seq<byte> := [0, 17, u / 256, u % 256];
    LeadingPair(0, 17, [u / 256, u % 256]);
    TwoBytes([u / 256, u % 256]);
    assert h == [0, 17] + [u / 256, u % 256];
  }

  /** The order of the code and the order of RFC 768 cover the same words. */
  lemma UdpParts(frame: seq<byte>, u: int, field: seq<byte>)
    requires 8 <= u <= 0xFFFF && 34 + u <= |frame| && |field| == 2
    ensures SumLE(UdpCovered(frame, u, field))
            == 0x1100 + Swap16(u) + SumLE(field) + SumLE(frame[26..38]) + SumLE(frame[42..34 + u])
    ensures Sum(UdpCovered(frame, u, field))
            == 17 + u + Sum(field) + Sum(frame[26..38]) + Sum(frame[42..34 + u])
  {
    hide SumLE, Sum, Swap16;
    var zero: seq<byte> := [0, 0];
    var a, c := frame[26..34], frame[34..38];
    PseudoWords(u);
    TwoBytes(zero);
    Addresses(frame);
    SixParts(a, [0, 17, u / 256, u % 256], c, field, zero, frame[42..34 + u]);
  }

  /** Addresses and ports are adjacent in the frame. */
  lemma Addresses(frame: seq<byte>)
    requires 38 <= |frame|
    ensures SumLE(frame[26..38]) == SumLE(frame[26..34]) + SumLE(frame[34..38])
    ensures Sum(frame[26..38]) == Sum(frame[26..34]) + Sum(frame[34..38])
  {
    hide SumLE, Sum;
    Joined(frame[26..34], frame[34..38]);
    assert frame[26..34] + frame[34..38] == frame[26..38];
  }

  lemma SixParts(a: seq<byte>, b: seq<byte>, c: seq<byte>, d: seq<byte>, e: seq<byte>, f: seq<byte>)
    requires |a| % 2 == |b| % 2 == |c| % 2 == |d| % 2 == |e| % 2 == 0
    ensures SumLE(a + b + c + d + e + f) == SumLE(a) + SumLE(b) + SumLE(c) + SumLE(d) + SumLE(e) + SumLE(f)
    ensures Sum(a + b + c + d + e + f) == Sum(a) + Sum(b) + Sum(c) + Sum(d) + Sum(e) + Sum(f)
  {
    hide SumLE, Sum;
    Joined(a, b);
    Joined(a + b, c);
    Joined(a + b + c, d);
    Joined(a + b + c + d, e);
    Joined(a + b + c + d + e, f);
  }

  lemma LengthWord(u: int)
    requires 8 <= u <= 0xFFFF
    ensures 0 <= Swap16(u) <= M && ByteRev(u) / 0x1_0000 == Swap16(u)
    ensures SumLE(LengthBytes(u)) == Swap16(u) && Sum(LengthBytes(u)) == u
  {
    ByteRevHalf(u);
    SwapTwice(u);
    TwoBytes(LengthBytes(u));
  }

  /** Lines 105-110. */
  method AddHeader(frame: seq<byte>, accum0: nat) returns (accum: int)
    requires 38 <= |frame| && accum0 <= 0x100_0000
    ensures accum == accum0 + SumLE(frame[26..38])
  {
    SixWords(frame);
    hide SumLE, Load16, Add32;
    accum := Add32(accum0, Load16(frame, 26));
    accum := Add32(accum, Load16(frame, 28));
    accum := Add32(accum, Load16(frame, 30));
    accum := Add32(accum, Load16(frame, 32));
    accum := Add32(accum, Load16(frame, 34));
    accum := Add32(accum, Load16(frame, 36));
  }

  /** checksum_udp() counts its length argument twice and never reads the length field: it is
      the checksum of RFC 768 exactly when the field agrees with the argument. */
  method ChecksumUdp(frame: seq<byte>, udplen: int) returns (r: int)
    requires 8 <= udplen <= 0xFFFF && 34 + udplen <= |frame|
    ensures r == Rfc1071(frame[26..34] + [0, 17, udplen / 256, udplen % 256] + frame[34..38]
                         + [udplen / 256, udplen % 256, 0, 0] + frame[42..34 + udplen])
    ensures r == Rfc1071(frame[26..34] + [0, 17, udplen / 256, udplen % 256] + frame[34..40]
                         + [0, 0] + frame[42..34 + udplen])
            <==> var field := 256 * frame[38] as int + frame[39];
                 field == udplen || (field == 0 && udplen == 0xFFFF)
  {
    CoveredBytes(frame, udplen);
    ghost var bs := UdpCovered(frame, udplen, LengthBytes(udplen));
    UdpParts(frame, udplen, LengthBytes(udplen));
    LengthWord(udplen);
    SumLEBound(bs);
    UdpChecksumIff(frame, udplen);
    hide SumLE, Sum, Rfc1071, Canon, ByteRev, Swap16, UdpCovered, UdpMessage, LengthAgrees, LengthBytes, Add32;
    assert |bs| <= 0x1_0010;
    var accum := 0x1100;
    accum := Add32(accum, ByteRev(udplen) / 0x1_0000 * 2);
    accum := AddHeader(frame, accum);
    accum := AddWords(frame, 42, 34 + udplen - 1, accum);
    accum := Fold(accum);
    SwappedResult(bs, SumLE(bs), accum);
    r := ByteRev(Not32(accum)) / 0x1_0000;
  }

  /** The two messages, spelled out. */
  lemma CoveredBytes(frame: seq<byte>, udplen: int)
    requires 8 <= udplen <= 0xFFFF && 34 + udplen <= |frame|
    ensures UdpCovered(frame, udplen, LengthBytes(udplen))
            == frame[26..34] + [0, 17, udplen / 256, udplen % 256] + frame[34..38]
               + [udplen / 256, udplen % 256, 0, 0] + frame[42..34 + udplen]
    ensures UdpMessage(frame, udplen)
            == frame[26..34] + [0, 17, udplen / 256, udplen % 256] + frame[34..40] + [0, 0] + frame[42..34 + udplen]
    ensures LengthAgrees(frame, udplen) <==>
            var field := 256 * frame[38] as int + frame[39];
            field == udplen || (field == 0 && udplen == 0xFFFF)
  {
    assert frame[34..38] + frame[38..40] == frame[34..40];
    assert LengthBytes(udplen) + [0, 0] == [udplen / 256, udplen % 256, 0, 0];
  }

  lemma SixWords(frame: seq<byte>)
    requires 38 <= |frame|
    ensures SumLE(frame[26..38]) == Load16(frame, 26) + Load16(frame, 28) + Load16(frame, 30)
                                    + Load16(frame, 32) + Load16(frame, 34) + Load16(frame, 36)
  {
    var f := frame;
    ThreePairs(f[32], f[33], f[34], f[35], f[36], f[37], []);
    ThreePairs(f[26], f[27], f[28], f[29], f[30], f[31], [f[32], f[33], f[34], f[35], f[36], f[37]] + []);
    assert f[26..38] == [f[26], f[27], f[28], f[29], f[30], f[31]] + ([f[32], f[33], f[34], f[35], f[36], f[37]] + []);
  }

  lemma UdpChecksumIff(frame: seq<byte>, udplen: int)
    requires 8 <= udplen <= 0xFFFF && 34 + udplen <= |frame|
    ensures Rfc1071(UdpCovered(frame, udplen, LengthBytes(udplen))) == Rfc1071(UdpMessage(frame, udplen))
            <==> LengthAgrees(frame, udplen)
  {
    var rest := Sum(frame[26..38]) + Sum(frame[42..34 + udplen]);
    UdpSum(frame, udplen, LengthBytes(udplen));
    UdpSum(frame, udplen, frame[38..40]);
    hide Sum, UdpCovered, OnesSum, Canon;
    OnesSumIsCanon(UdpCovered(frame, udplen, LengthBytes(udplen)));
    OnesSumIsCanon(UdpMessage(frame, udplen));
    SameCanonIff(17 + udplen + rest, udplen, Word16(frame[38], frame[39]));
  }

  lemma UdpSum(frame: seq<byte>, u: int, field: seq<byte>)
    requires 8 <= u <= 0xFFFF && 34 + u <= |frame| && |field| == 2
    ensures Sum(UdpCovered(frame, u, field))
            == 17 + u + Sum(frame[26..38]) + Sum(frame[42..34 + u]) + Word16(field[0], field[1])
  {
    hide Sum, SumLE, UdpCovered;
    UdpParts(frame, u, field);
    TwoBytes(field);
  }

  lemma SameCanonIff(s: nat, x: nat, y: nat)
    requires s > 0 && x <= M && y <= M
    ensures Canon(s + x) == Canon(s + y) <==> x == y || (x == 0 && y == M) || (x == M && y == 0)
  {
    var a, b := s + x, s + y;
    assert a - 1 == (a - 1) / M * M + (a - 1) % M;
    assert b - 1 == (b - 1) / M * M + (b - 1) % M;
    if x == 0 && y == M { CanonShift(a, 1); }
    if x == M && y == 0 { CanonShift(b, 1); }
    if Canon(a) == Canon(b) {
      assert a - b == ((a - 1) / M - (b - 1) / M) * M;
      SmallMultiple((a - 1) / M - (b - 1) / M, a - b);
    }
  }

  lemma SmallMultiple(k: int, d: int)
    requires d == k * M && -M <= d <= M
    ensures -1 <= k <= 1
  {}
}
