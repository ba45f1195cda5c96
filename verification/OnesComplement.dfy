/** One's-complement arithmetic of sections 1 and 2 of RFC 1071: the reference definition of
    the checksum, and the algebra that lets carries be deferred and bytes be swapped. */
module OnesComplement {
  import opened Bytes

  type byte = b: int | 0 <= b < 256

  const M := 65535

  /** The word with the given high and low bytes. */
  function Word16(hi: int, lo: int): int { 256 * hi + lo }

  /** One's-complement addition of 16-bit words: an end-around carry after every addition. */
  function OnesAdd(x: int, y: int): int { if x + y > M then x + y - M else x + y }

  /** The 16-bit words of the message in network order, an odd last byte padded with zero,
      added in one's complement. */
  function OnesSum(bs: seq<byte>): int {
    if bs == [] then 0
    else if |bs| == 1 then OnesAdd(Word16(bs[0], 0), 0)
    else OnesAdd(Word16(bs[0], bs[1]), OnesSum(bs[2..]))
  }

  /** The RFC 1071 checksum. */
  function Rfc1071(bs: seq<byte>): (c: int)
    ensures 0 <= c <= M
  {
    OnesSumIsCanon(bs);
    M - OnesSum(bs)
  }

  /** The numerical example of section 3 of RFC 1071: the words 0001, f203, f4f5, f6f7 add up to
      ddf2 in one's complement; byte by byte from the other side, to f2dd. */
  lemma Section3Example()
    ensures OnesSum([0x00, 0x01, 0xf2, 0x03, 0xf4, 0xf5, 0xf6, 0xf7]) == 0xddf2
    ensures OnesSum([0x01, 0x00, 0x03, 0xf2, 0xf5, 0xf4, 0xf7, 0xf6]) == 0xf2dd
    ensures Rfc1071([0x00, 0x01, 0xf2, 0x03, 0xf4, 0xf5, 0xf6, 0xf7]) == 0x220d
  {
    var a: seq<byte> := [0x00, 0x01, 0xf2, 0x03, 0xf4, 0xf5, 0xf6, 0xf7];
    var b: seq<byte> := [0x01, 0x00, 0x03, 0xf2, 0xf5, 0xf4, 0xf7, 0xf6];
    assert a[2..] == [0xf2, 0x03, 0xf4, 0xf5, 0xf6, 0xf7] && a[2..][2..] == [0xf4, 0xf5, 0xf6, 0xf7]
           && a[2..][2..][2..] == [0xf6, 0xf7] && a[2..][2..][2..][2..] == [];
    assert b[2..] == [0x03, 0xf2, 0xf5, 0xf4, 0xf7, 0xf6] && b[2..][2..] == [0xf5, 0xf4, 0xf7, 0xf6]
           && b[2..][2..][2..] == [0xf7, 0xf6] && b[2..][2..][2..][2..] == [];
  }

  /** The same words added as integers. */
  function Sum(bs: seq<byte>): nat {
    if bs == [] then 0
    else if |bs| == 1 then Word16(bs[0], 0)
    else Word16(bs[0], bs[1]) + Sum(bs[2..])
  }

  /** The words as a little-endian machine loads them; an odd last byte is added as it is. */
  function SumLE(bs: seq<byte>): nat {
    if bs == [] then 0
    else if |bs| == 1 then bs[0]
    else Word16(bs[1], bs[0]) + SumLE(bs[2..])
  }

  /** The 16-bit representative of a sum: zero only for zero. */
  function Canon(s: nat): nat { if s == 0 then 0 else (s - 1) % M + 1 }

  function Swap16(x: int): int { x % 256 * 256 + x / 256 }

  lemma CanonAdd(w: nat, s: nat)
    requires w <= M
    ensures OnesAdd(w, Canon(s)) == Canon(w + s)
    ensures Canon(s) <= M && (Canon(s) == 0 <==> s == 0)
  {
    if s > 0 {
      var k := (s - 1) / M;
      assert s - 1 == k * M + (s - 1) % M;
      CanonShift(w + Canon(s), k);
      assert w + s == w + Canon(s) + k * M;
    }
    CanonSmall(w);
  }

  lemma CanonSmall(x: nat)
    ensures x <= M ==> Canon(x) == x
    ensures M < x <= 2 * M ==> Canon(x) == x - M
  {
    if M < x <= 2 * M { assert (x - 1) % M == x - 1 - M; }
  }

  lemma CanonShift(x: nat, k: nat)
    requires x > 0
    ensures Canon(x + k * M) == Canon(x)
    decreases k
  {
    if k > 0 {
      CanonShift(x, k - 1);
      var y := x - 1 + (k - 1) * M;
      assert x - 1 + k * M == y + M;
      assert (y + M) % M == y % M;
    }
  }

  /** Deferred carries: adding as integers and folding once gives the one's-complement sum. */
  lemma {:induction false} OnesSumIsCanon(bs: seq<byte>)
    ensures OnesSum(bs) == Canon(Sum(bs)) && 0 <= OnesSum(bs) <= M
  {
    if bs == [] {
    } else if |bs| == 1 {
      CanonAdd(Word16(bs[0], 0), 0);
    } else {
      OnesSumIsCanon(bs[2..]);
      CanonAdd(Word16(bs[0], bs[1]), Sum(bs[2..]));
      CanonAdd(0, Word16(bs[0], bs[1]) + Sum(bs[2..]));
    }
  }

  /** Sum of the bytes in high position. */
  function Highs(bs: seq<byte>): nat {
    if bs == [] then 0
    else if |bs| == 1 then bs[0]
    else bs[0] + Highs(bs[2..])
  }

  lemma {:induction false} SwappedSum(bs: seq<byte>)
    ensures SumLE(bs) + M * Highs(bs) == 256 * Sum(bs)
    ensures SumLE(bs) == 0 <==> Sum(bs) == 0
  {
    if |bs| > 1 { SwappedSum(bs[2..]); }
  }

  lemma SwapIsTimes256(x: nat)
    requires x <= M
    ensures Swap16(x) == Canon(256 * x) && Swap16(M - x) == M - Swap16(x)
  {
    var h, l := x / 256, x % 256;
    assert 256 * x == M * h + (256 * l + h);
    if x > 0 {
      CanonShift(256 * l + h, h);
      CanonSmall(256 * l + h);
    }
    assert M - x == 256 * (255 - h) + (255 - l);
  }

  lemma CanonTimes256(s: nat)
    ensures Canon(256 * Canon(s)) == Canon(256 * s)
  {
    if s > 0 {
      var k := (s - 1) / M;
      assert s == k * M + Canon(s);
      assert 256 * s == 256 * Canon(s) + (256 * k) * M;
      CanonShift(256 * Canon(s), 256 * k);
    }
  }

  /** Byte order independence: the sum of the swapped words is the swapped sum. */
  lemma ByteOrderIndependence(bs: seq<byte>)
    ensures Canon(SumLE(bs)) == Swap16(OnesSum(bs))
  {
    SwappedSum(bs);
    OnesSumIsCanon(bs);
    SwapIsTimes256(Canon(Sum(bs)));
    CanonTimes256(Sum(bs));
    if SumLE(bs) > 0 { CanonShift(SumLE(bs), Highs(bs)); }
    assert 256 * Sum(bs) == SumLE(bs) + Highs(bs) * M;
  }

  /** The other grouping: first byte high, then little-endian pairs, then a last low byte. */
  lemma {:induction false} ShiftedGrouping(bs: seq<byte>)
    requires bs != []
    ensures Word16(bs[0], 0) + SumLE(bs[1..]) == Sum(bs)
  {
    if |bs| > 2 {
      ShiftedGrouping(bs[2..]);
      assert bs[1..][2..] == bs[2..][1..];
    }
  }

  lemma {:induction false} SumLEBound(bs: seq<byte>)
    ensures SumLE(bs) <= M * ((|bs| + 1) / 2)
  {
    if |bs| > 1 { SumLEBound(bs[2..]); }
  }

  lemma {:induction false} SumConcat(a: seq<byte>, b: seq<byte>)
    requires |a| % 2 == 0
    ensures Sum(a + b) == Sum(a) + Sum(b)
  {
    if a == [] {
      assert a + b == b;
    } else {
      SumConcat(a[2..], b);
      assert (a + b)[2..] == a[2..] + b;
    }
  }

  /** A message verifies when its checksum, computed over everything, is zero. */
  predicate Verifies(bs: seq<byte>) { Rfc1071(bs) == 0 }

  lemma VerifiesIff(bs: seq<byte>)
    ensures Verifies(bs) <==> Sum(bs) > 0 && Sum(bs) % M == 0
  {
    OnesSumIsCanon(bs);
    var s := Sum(bs);
    if s > 0 {
      assert s - 1 == (s - 1) / M * M + (s - 1) % M;
      if (s - 1) % M == M - 1 {
        assert s == ((s - 1) / M + 1) * M;
        MultipleOfM((s - 1) / M + 1);
      } else {
        NotMultipleOfM((s - 1) / M, (s - 1) % M + 1);
      }
    }
  }

  lemma MultipleOfM(k: nat)
    ensures (k * M) % M == 0
  {}

  lemma NotMultipleOfM(k: nat, r: nat)
    requires 0 < r < M
    ensures (k * M + r) % M == r
  {
    assert (k * M + r) / M == k;
  }

  /** Putting the complement of the sum into a zeroed field makes the message verify. */
  lemma InsertedChecksumVerifies(a: seq<byte>, b: seq<byte>)
    requires |a| % 2 == 0
    ensures var c := Rfc1071(a + [0, 0] + b);
            && 0 <= c <= M
            && Verifies(a + [c / 256, c % 256] + b)
  {
    var s := Sum(a) + Sum(b);
    OnesSumIsCanon(a + [0, 0] + b);
    SumWithField(a, [0, 0], b);
    ComplementCloses(s);
    var c := M - Canon(s);
    hide Sum, OnesSum, Canon, Verifies;
    SumWithField(a, [c / 256, c % 256], b);
    VerifiesIff(a + [c / 256, c % 256] + b);
  }

  lemma ComplementCloses(s: nat)
    ensures 0 <= Canon(s) <= M && s + (M - Canon(s)) > 0 && (s + (M - Canon(s))) % M == 0
  {
    if s > 0 {
      var k, r := (s - 1) / M, (s - 1) % M;
      assert s - 1 == k * M + r;
      assert s + (M - Canon(s)) == (k + 1) * M;
      MultipleOfM(k + 1);
    }
  }

  /** A 16-bit field adds its value. */
  lemma SumWithField(a: seq<byte>, f: seq<byte>, b: seq<byte>)
    requires |a| % 2 == 0 && |f| == 2
    ensures Sum(a + f + b) == Sum(a) + Sum(b) + Word16(f[0], f[1])
  {
    SumConcat(a + f, b);
    SumConcat(a, f);
    assert f[2..] == [];
  }
}
