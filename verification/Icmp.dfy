/** build_icmp_response of demo.xc: the echo reply, with a freshly summed IP header checksum
    and an incrementally updated ICMP checksum. */
module Icmp {
  import opened Bytes
  import opened OnesComplement
  import opened Checksum

  /** s with the bytes src written from position at on. */
  function Splice(s: seq<byte>, at: nat, src: seq<byte>): (r: seq<byte>)
    requires at + |src| <= |s|
    ensures |r| == |s|
  {
    s[..at] + src + s[at + |src|..]
  }

  lemma SpliceByte(s: seq<byte>, at: nat, src: seq<byte>, j: nat)
    requires at + |src| <= |s| && j < |s|
    ensures Splice(s, at, src)[j] == if at <= j < at + |src| then src[j - at] else s[j]
  {}

  /** A copying loop. */
  method CopyBytes(dst: array<byte>, at: nat, src: seq<byte>)
    requires at + |src| <= dst.Length
    modifies dst
    ensures dst[..] == Splice(old(dst[..]), at, src)
  {
    for i := 0 to |src|
      invariant forall j :: 0 <= j < dst.Length ==>
                  dst[j] == if at <= j < at + i then src[j - at] else old(dst[j])
    {
      dst[at + i] := src[i];
    }
  }

  function WordBytes(v: int): seq<byte> { [Byte(v, 0), Byte(v, 1), Byte(v, 2), Byte(v, 3)] }

  /** (dst, unsigned[])[w] = v on a little-endian machine. */
  method StoreWord(dst: array<byte>, w: nat, v: int)
    requires 4 * w + 4 <= dst.Length
    modifies dst
    ensures dst[..] == Splice(old(dst[..]), 4 * w, WordBytes(v))
  {
    dst[4 * w], dst[4 * w + 1], dst[4 * w + 2], dst[4 * w + 3] := Byte(v, 0), Byte(v, 1), Byte(v, 2), Byte(v, 3);
    assert dst[..] == Splice(old(dst[..]), 4 * w, WordBytes(v));
  }

  /** (src, const unsigned[])[w]. */
  function LoadWord(src: seq<byte>, w: nat): int
    requires 4 * w + 4 <= |src|
  {
    In(src[4 * w + 3], src[4 * w + 2], src[4 * w + 1], src[4 * w])
  }

  function TotalLength(rx: seq<byte>): nat
    requires 18 <= |rx|
  {
    Word16(rx[16], rx[17])
  }

  /** The checksum field of the reply: +0x0800 with an end-around carry, cut to 16 bits. */
  function EchoChecksum(old16: int): (c: int)
    ensures 0 <= c <= M
  {
    var y := old16 + 0x0800;
    (y + y / 0x1_0000) % 0x1_0000
  }

  /** The reply's IP header around its checksum field. */
  function HeaderStart(total: int): seq<byte>
    requires 0 <= total <= M
  {
    [0x45, 0, total / 256, total % 256, 0, 0, 0, 0, 0x40, 1]
  }

  function HeaderChecksum(total: int, ip: seq<byte>, peer: seq<byte>): (c: int)
    requires 0 <= total <= M
    ensures 0 <= c <= M
  {
    Rfc1071(HeaderStart(total) + [0, 0] + (ip + peer))
  }

  function Pair(w: int): (p: seq<byte>)
    requires 0 <= w <= M
    ensures |p| == 2
  {
    [w / 256, w % 256]
  }

  predicate HasRoom(rx: seq<byte>, txLength: int, mac: seq<byte>, ip: seq<byte>) {
    && 42 <= |rx| && |mac| == 6 && |ip| == 4
    && 64 <= txLength && 14 + TotalLength(rx) <= |rx| && 14 + TotalLength(rx) <= txLength
  }

  /** The layout of the reply, byte by byte. */
  ghost function ReplyByte(rx: seq<byte>, mac: seq<byte>, ip: seq<byte>, j: nat): byte
    requires Request(rx, mac, ip) && j < |rx|
  {
    var total := TotalLength(rx);
    if j < 6 then rx[6 + j]
    else if j < 12 then mac[j - 6]
    else if j < 14 then (if j == 12 then 8 else 0)
    else if j < 24 then HeaderStart(total)[j - 14]
    else if j < 26 then Pair(HeaderChecksum(total, ip, rx[26..30]))[j - 24]
    else if j < 30 then ip[j - 26]
    else if j < 34 then rx[j - 4]
    else if j < 36 then 0
    else if j < 38 then Pair(EchoChecksum(Word16(rx[36], rx[37])))[j - 36]
    else rx[j]
  }

  predicate Request(rx: seq<byte>, mac: seq<byte>, ip: seq<byte>) {
    42 <= |rx| && |mac| == 6 && |ip| == 4 && 14 + TotalLength(rx) <= |rx|
  }

  function ReplyLength(rx: seq<byte>): nat
    requires 42 <= |rx|
  {
    if TotalLength(rx) >= 28 then 14 + TotalLength(rx) else 42
  }

  /** The reply up to the end of the echoed data. */
  ghost function Reply(rx: seq<byte>, mac: seq<byte>, ip: seq<byte>): (r: seq<byte>)
    requires Request(rx, mac, ip)
    ensures |r| == ReplyLength(rx)
  {
    seq(ReplyLength(rx), j requires 0 <= j < ReplyLength(rx) => ReplyByte(rx, mac, ip, j))
  }

  lemma TopHalf(src: seq<byte>, w: nat)
    requires 4 * w + 4 <= |src|
    ensures ByteRev(LoadWord(src, w)) / 0x1_0000 == Word16(src[4 * w], src[4 * w + 1])
  {
    ByteOfIn(src[4 * w + 3], src[4 * w + 2], src[4 * w + 1], src[4 * w]);
    Halves(LoadWord(src, w));
  }

  lemma EndOfHeader(a: seq<byte>)
    ensures SumLE([]) == 0 && Sum([]) == 0
  {}

  /** The header words the code adds up, starting from the precomputed 0x0185. */
  lemma HeaderSumLE(total: int, a: seq<byte>)
    requires 0 <= total <= M && |a| == 8
    ensures SumLE(HeaderStart(total) + [0, 0] + a)
            == 0x0185 + Swap16(total) + Word16(a[1], a[0]) + Word16(a[3], a[2]) + Word16(a[5], a[4]) + Word16(a[7], a[6])
  {
    EndOfHeader(a);
    hide SumLE, Sum;
    var t: seq<byte> := [a[6], a[7]] + [];
    LeadingPair(a[6], a[7], []);
    ThreePairs(a[0], a[1], a[2], a[3], a[4], a[5], t);
    var tail := [a[0], a[1], a[2], a[3], a[4], a[5]] + t;
    LeadingPair(0x40, 1, [0, 0] + a);
    LeadingPair(0, 0, a);
    assert a == tail;
    LeadingPair(0, 0, [0x40, 1] + ([0, 0] + a));
    ThreePairs(0x45, 0, total / 256, total % 256, 0, 0, [0, 0] + ([0x40, 1] + ([0, 0] + a)));
    assert HeaderStart(total) + [0, 0] + a
           == [0x45, 0, total / 256, total % 256, 0, 0] + ([0, 0] + ([0x40, 1] + ([0, 0] + a)));
  }

  /** The code's running sum is the little-endian sum of the reply's header. */
  method HeaderField(total: int, ip: seq<byte>, peer: seq<byte>) returns (c: int)
    requires 0 <= total <= M && |ip| == |peer| == 4
    ensures c == HeaderChecksum(total, ip, peer)
  {
    var sum := 0x0185;
    sum := Add32(sum, ByteRev(total) / 0x1_0000);
    sum := Add32(sum, Word16(ip[1], ip[0]));
    sum := Add32(sum, Word16(ip[3], ip[2]));
    sum := Add32(sum, Word16(peer[1], peer[0]));
    sum := Add32(sum, Word16(peer[3], peer[2]));
    ByteRevHalf(total);
    HeaderSumLE(total, ip + peer);
    sum := Fold(sum);
    SwappedResult(HeaderStart(total) + [0, 0] + (ip + peer), SumLE(HeaderStart(total) + [0, 0] + (ip + peer)), sum);
    c := ByteRev(Not32(sum)) / 0x1_0000;
  }

  /** The frame after lines 208-241 of demo.xc: everything but the two checksums. */
  function Addressed(was: seq<byte>, rx: seq<byte>, mac: seq<byte>, ip: seq<byte>): (t: seq<byte>)
    requires HasRoom(rx, |was|, mac, ip)
    ensures |t| == |was|
  {
    var t1 := Splice(Splice(Copied(was, rx, mac), 12, [8, 0, 0x45, 0]), 16, Pair(TotalLength(rx)) + [0, 0]);
    Splice(Splice(Splice(t1, 20, [0, 0, 0x40, 1]), 24, [0, 0, 0, 0]), 26, ip)
  }

  lemma BytesOfIn(b3: byte, b2: byte, b1: byte, b0: byte)
    ensures WordBytes(In(b3, b2, b1, b0)) == [b0, b1, b2, b3]
  {
    ByteOfIn(b3, b2, b1, b0);
  }

  lemma FixedWords()
    ensures WordBytes(0x0045_0008) == [8, 0, 0x45, 0]
    ensures WordBytes(0x0100_0000 + 0x40 * 0x1_0000) == [0, 0, 0x40, 1]
    ensures WordBytes(0) == [0, 0, 0, 0]
  {
    BytesOfIn(0, 0x45, 0, 8);
    BytesOfIn(1, 0x40, 0, 0);
    BytesOfIn(0, 0, 0, 0);
    hide WordBytes;
  }

  lemma TotalWord(total: int)
    requires 0 <= total <= M
    ensures WordBytes(Swap16(total)) == Pair(total) + [0, 0]
  {
    BytesOfIn(0, 0, total % 256, total / 256);
    hide WordBytes, Byte;
    assert In(0, 0, total % 256, total / 256) == Swap16(total);
  }

  /** Lines 208-241 of demo.xc. */
  method WriteFields(rx: seq<byte>, tx: array<byte>, mac: seq<byte>, ip: seq<byte>)
    requires HasRoom(rx, tx.Length, mac, ip)
    modifies tx
    ensures tx[..] == Addressed(old(tx[..]), rx, mac, ip)
  {
    TopHalf(rx, 4);
    var total := ByteRev(LoadWord(rx, 4)) / 0x1_0000;
    FixedWords();
    TotalWord(total);
    ByteRevHalf(total);
    hide Splice, ByteRev, Byte, WordBytes, Swap16, LoadWord;
    CopyBytes(tx, 0, rx[6..12]);
    CopyBytes(tx, 30, rx[26..30]);
    CopyBytes(tx, 38, rx[38..42]);
    var dataLen := total - 28;
    if dataLen > 0 {
      CopyBytes(tx, 42, rx[42..42 + dataLen]);
    }
    CopyBytes(tx, 6, mac);
    StoreWord(tx, 3, 0x0045_0008);
    StoreWord(tx, 4, ByteRev(28 + dataLen) / 0x1_0000);
    StoreWord(tx, 5, 0x0100_0000 + 0x40 * 0x1_0000);
    StoreWord(tx, 6, 0);
    CopyBytes(tx, 26, ip);
  }

  /** Addressed plus the two checksum fields and the zero type and code. */
  function Completed(t: seq<byte>, c: seq<byte>, k: seq<byte>): seq<byte>
    requires 42 <= |t| && |c| == 2 && |k| == 2
  {
    Splice(Splice(t, 34, [0, 0] + k), 24, c)
  }

  /** The frame after the copies of lines 208-231. */
  function Copied(was: seq<byte>, rx: seq<byte>, mac: seq<byte>): (t: seq<byte>)
    requires HasRoom(rx, |was|, mac, [0, 0, 0, 0])
    ensures |t| == |was|
  {
    var total := TotalLength(rx);
    var t1 := Splice(Splice(Splice(was, 0, rx[6..12]), 30, rx[26..30]), 38, rx[38..42]);
    var t2 := if total > 28 then Splice(t1, 42, rx[42..14 + total]) else t1;
    Splice(t2, 6, mac)
  }

  lemma CopiedByte(was: seq<byte>, rx: seq<byte>, mac: seq<byte>, j: nat)
    requires HasRoom(rx, |was|, mac, [0, 0, 0, 0]) && j < |was|
    ensures Copied(was, rx, mac)[j]
            == if j < 6 then rx[6 + j] else if j < 12 then mac[j - 6]
               else if 30 <= j < 34 then rx[j - 4] else if 38 <= j < ReplyLength(rx) then rx[j] else was[j]
  {
    hide Splice;
    var total := TotalLength(rx);
    var a := Splice(was, 0, rx[6..12]);
    var b := Splice(a, 30, rx[26..30]);
    var c := Splice(b, 38, rx[38..42]);
    SpliceByte(was, 0, rx[6..12], j);
    SpliceByte(a, 30, rx[26..30], j);
    SpliceByte(b, 38, rx[38..42], j);
    if total > 28 {
      SpliceByte(c, 42, rx[42..14 + total], j);
      SpliceByte(Splice(c, 42, rx[42..14 + total]), 6, mac, j);
    } else {
      SpliceByte(c, 6, mac, j);
    }
  }

  lemma AddressedByte(was: seq<byte>, rx: seq<byte>, mac: seq<byte>, ip: seq<byte>, j: nat)
    requires HasRoom(rx, |was|, mac, ip) && j < |was|
    ensures Addressed(was, rx, mac, ip)[j]
            == if 12 <= j < 16 then [8, 0, 0x45, 0][j - 12]
               else if 16 <= j < 20 then (Pair(TotalLength(rx)) + [0, 0])[j - 16]
               else if 20 <= j < 24 then [0, 0, 0x40, 1][j - 20]
               else if 24 <= j < 26 then 0
               else if 26 <= j < 30 then ip[j - 26] else Copied(was, rx, mac)[j]
  {
    hide Splice, Copied, Pair;
    var total := TotalLength(rx);
    var t0 := Copied(was, rx, mac);
    var t1 := Splice(t0, 12, [8, 0, 0x45, 0]);
    var t2 := Splice(t1, 16, Pair(total) + [0, 0]);
    var t3 := Splice(t2, 20, [0, 0, 0x40, 1]);
    var t4 := Splice(t3, 24, [0, 0, 0, 0]);
    SpliceByte(t0, 12, [8, 0, 0x45, 0], j);
    SpliceByte(t1, 16, Pair(total) + [0, 0], j);
    SpliceByte(t2, 20, [0, 0, 0x40, 1], j);
    SpliceByte(t3, 24, [0, 0, 0, 0], j);
    SpliceByte(t4, 26, ip, j);
  }

  lemma LayoutHead(total: int, j: nat)
    requires 0 <= total <= M && 12 <= j < 24
    ensures (if j < 14 then (if j == 12 then 8 else 0) else HeaderStart(total)[j - 14])
            == if j < 16 then [8, 0, 0x45, 0][j - 12]
               else if j < 20 then (Pair(total) + [0, 0])[j - 16] else [0, 0, 0x40, 1][j - 20]
  {}

  lemma CompletedIsReply(was: seq<byte>, rx: seq<byte>, mac: seq<byte>, ip: seq<byte>, j: nat)
    requires HasRoom(rx, |was|, mac, ip) && j < |was|
    ensures var total := TotalLength(rx);
            var t := Completed(Addressed(was, rx, mac, ip), Pair(HeaderChecksum(total, ip, rx[26..30])),
                               Pair(EchoChecksum(Word16(rx[36], rx[37]))));
            t[j] == if j < ReplyLength(rx) then ReplyByte(rx, mac, ip, j) else was[j]
  {
    hide HeaderChecksum, EchoChecksum, Addressed, Splice, Copied, Pair;
    var t0, c, k := Addressed(was, rx, mac, ip), Pair(HeaderChecksum(TotalLength(rx), ip, rx[26..30])),
                    Pair(EchoChecksum(Word16(rx[36], rx[37])));
    SpliceByte(t0, 34, [0, 0] + k, j);
    SpliceByte(Splice(t0, 34, [0, 0] + k), 24, c, j);
    AddressedByte(was, rx, mac, ip, j);
    CopiedByte(was, rx, mac, j);
    if 12 <= j < 24 { LayoutHead(TotalLength(rx), j); }
    hide HeaderStart;
  }

  /** Lines 242-261: both checksum fields. */
  method WriteChecksums(tx: array<byte>, total: int, icmp0: int, ghost ip: seq<byte>, ghost peer: seq<byte>)
    requires 42 <= tx.Length && 0 <= total <= M && 0 <= icmp0 <= M
    requires ip == tx[26..30] && peer == tx[30..34]
    modifies tx
    ensures tx[..] == Completed(old(tx[..]), Pair(HeaderChecksum(total, ip, peer)), Pair(EchoChecksum(icmp0)))
  {
    ghost var was := tx[..];
    hide EchoChecksum, HeaderChecksum, Completed;
    var ipChecksum := HeaderField(total, tx[26..30], tx[30..34]);
    tx[34] := 0;
    tx[35] := 0;
    var icmp := Add32(icmp0, 0x0800);
    icmp := Add32(icmp, icmp / 0x1_0000);
    tx[36] := icmp / 0x100 % 0x100;
    tx[37] := icmp % 0x100;
    tx[24] := ipChecksum / 0x100;
    tx[25] := ipChecksum % 0x100;
    EchoBytes(icmp0);
    CompletedFields(was, tx[..], Pair(ipChecksum), Pair(EchoChecksum(icmp0)));
  }

  lemma CompletedFields(was: seq<byte>, now: seq<byte>, c: seq<byte>, k: seq<byte>)
    requires 42 <= |was| == |now| && |c| == 2 && |k| == 2
    requires now[24] == c[0] && now[25] == c[1] && now[34] == now[35] == 0 && now[36] == k[0] && now[37] == k[1]
    requires forall j :: 0 <= j < |was| && !(24 <= j < 26) && !(34 <= j < 38) ==> now[j] == was[j]
    ensures now == Completed(was, c, k)
  {
    hide Splice;
    forall j: nat | j < |was|
      ensures now[j] == Completed(was, c, k)[j]
    {
      SpliceByte(was, 34, [0, 0] + k, j);
      SpliceByte(Splice(was, 34, [0, 0] + k), 24, c, j);
    }
  }

  lemma EchoBytes(x: int)
    requires 0 <= x <= M
    ensures var v := x + 0x0800 + (x + 0x0800) / 0x1_0000;
            Pair(EchoChecksum(x)) == [v / 0x100 % 0x100, v % 0x100]
  {
    LowHalf(x + 0x0800 + (x + 0x0800) / 0x1_0000);
  }

  lemma LowHalf(v: nat)
    ensures v % 0x1_0000 / 0x100 == v / 0x100 % 0x100 && v % 0x1_0000 % 0x100 == v % 0x100
  {
    var k, r := v / 0x1_0000, v % 0x1_0000;
    assert v == k * 0x1_0000 + r;
    assert v / 0x100 == k * 0x100 + r / 0x100;
  }

  lemma ReplyComplete(was: seq<byte>, rx: seq<byte>, mac: seq<byte>, ip: seq<byte>)
    requires HasRoom(rx, |was|, mac, ip)
    ensures var t := Completed(Addressed(was, rx, mac, ip),
                               Pair(HeaderChecksum(TotalLength(rx), ip, rx[26..30])),
                               Pair(EchoChecksum(Word16(rx[36], rx[37]))));
            && |t| == |was| && 42 <= ReplyLength(rx) <= |was|
            && forall j :: 0 <= j < |was| ==> t[j] == if j < ReplyLength(rx) then Reply(rx, mac, ip)[j] else was[j]
  {
    hide HeaderChecksum, EchoChecksum, Addressed, Splice, Pair, ReplyByte;
    forall j: nat | j < |was|
      ensures var t := Completed(Addressed(was, rx, mac, ip),
                                 Pair(HeaderChecksum(TotalLength(rx), ip, rx[26..30])),
                                 Pair(EchoChecksum(Word16(rx[36], rx[37]))));
              t[j] == if j < ReplyLength(rx) then Reply(rx, mac, ip)[j] else was[j]
    {
      CompletedIsReply(was, rx, mac, ip, j);
    }
  }

  lemma AddressedIp(was: seq<byte>, rx: seq<byte>, mac: seq<byte>, ip: seq<byte>)
    requires HasRoom(rx, |was|, mac, ip)
    ensures Addressed(was, rx, mac, ip)[26..30] == ip
    ensures Addressed(was, rx, mac, ip)[30..34] == rx[26..30]
  {
    hide Addressed, Copied;
    var t := Addressed(was, rx, mac, ip);
    forall i: nat | i < 4
      ensures t[26..30][i] == ip[i] && t[30..34][i] == rx[26..30][i]
    {
      AddressedByte(was, rx, mac, ip, 26 + i);
      AddressedByte(was, rx, mac, ip, 30 + i);
      CopiedByte(was, rx, mac, 30 + i);
    }
  }

  /** Lines 263-266: pad the frame to 64 bytes. */
  method PadFrame(tx: array<byte>, from: nat) returns (pad: nat)
    requires 64 <= tx.Length && from <= tx.Length
    modifies tx
    ensures pad == if from < 64 then 64 else from
    ensures forall j :: 0 <= j < tx.Length ==> tx[j] == if from <= j < 64 then 0 else old(tx[j])
  {
    pad := from;
    while pad < 64
      invariant from <= pad && (pad <= 64 || pad == from)
      invariant forall j :: 0 <= j < tx.Length ==> tx[j] == if from <= j < pad then 0 else old(tx[j])
    {
      tx[pad] := 0;
      pad := pad + 1;
    }
  }

  // ---------- the checksums of the reply ----------

  /** The reply's IP header verifies: checksum_ip, which computes Rfc1071 of bytes 14..33,
      returns 0 on it. */
  lemma ReplyHeaderVerifies(rx: seq<byte>, mac: seq<byte>, ip: seq<byte>)
    requires Request(rx, mac, ip)
    ensures Verifies(Reply(rx, mac, ip)[14..34])
  {
    var total, peer := TotalLength(rx), rx[26..30];
    hide HeaderStart, Verifies, EchoChecksum;
    InsertedChecksumVerifies(HeaderStart(total), ip + peer);
    assert Reply(rx, mac, ip)[14..34] == HeaderStart(total) + Pair(HeaderChecksum(total, ip, peer)) + (ip + peer);
  }

  /** The incremental update: if the request verifies, so does the reply. */
  lemma EchoUpdateVerifies(rest: seq<byte>, c: int)
    requires 0 <= c <= M && Verifies([8, 0] + Pair(c) + rest)
    ensures 0 <= EchoChecksum(c) <= M && Verifies([0, 0] + Pair(EchoChecksum(c)) + rest)
  {
    var k := EchoChecksum(c);
    EchoIsOnesAdd(c);
    IcmpSum(8, c, rest);
    IcmpSum(0, k, rest);
    var before, after := Sum([8, 0] + Pair(c) + rest), Sum([0, 0] + Pair(k) + rest);
    VerifiesIff([8, 0] + Pair(c) + rest);
    VerifiesIff([0, 0] + Pair(k) + rest);
    assert before - after == 0 || before - after == M;
    SameResidue(before, after);
  }

  lemma SameResidue(a: nat, b: nat)
    requires a == b || a == b + M
    ensures a % M == b % M
  {}

  lemma EchoIsOnesAdd(c: int)
    requires 0 <= c <= M
    ensures EchoChecksum(c) == OnesAdd(c, 0x0800) && 0 < EchoChecksum(c) <= M
  {}

  lemma IcmpSum(kind: byte, c: int, rest: seq<byte>)
    requires 0 <= c <= M
    ensures Sum([kind, 0] + Pair(c) + rest) == 256 * kind as int + c + Sum(rest)
  {
    LeadingPair(c / 256, c % 256, rest);
    LeadingPair(kind, 0, Pair(c) + rest);
    assert [kind, 0] + Pair(c) + rest == [kind, 0] + (Pair(c) + rest);
  }

  /** For every echo request whose ICMP checksum is valid, the reply's ICMP message is valid. */
  lemma ReplyMessageVerifies(rx: seq<byte>, mac: seq<byte>, ip: seq<byte>)
    requires Request(rx, mac, ip) && 28 <= TotalLength(rx)
    requires rx[34] == 8 && rx[35] == 0
    requires Verifies(rx[34..14 + TotalLength(rx)])
    ensures |Reply(rx, mac, ip)| == 14 + TotalLength(rx)
    ensures Verifies(Reply(rx, mac, ip)[34..])
  {
    var n, c := 14 + TotalLength(rx), Word16(rx[36], rx[37]);
    var rest := rx[38..n];
    hide Verifies;
    assert Pair(c) == rx[36..38];
    assert rx[34..n] == rx[34..36] + rx[36..38] + rx[38..n];
    assert rx[34..36] == [8, 0];
    EchoUpdateVerifies(rest, c);
    ReplyTail(rx, mac, ip);
  }

  lemma ReplyTail(rx: seq<byte>, mac: seq<byte>, ip: seq<byte>)
    requires Request(rx, mac, ip) && 28 <= TotalLength(rx)
    ensures Reply(rx, mac, ip)[34..]
            == [0, 0] + Pair(EchoChecksum(Word16(rx[36], rx[37]))) + rx[38..14 + TotalLength(rx)]
  {
    hide HeaderStart, EchoChecksum, HeaderChecksum;
    var r, tail := Reply(rx, mac, ip), [0, 0] + Pair(EchoChecksum(Word16(rx[36], rx[37]))) + rx[38..14 + TotalLength(rx)];
    forall j | 0 <= j < |tail|
      ensures r[34..][j] == tail[j]
    {
      assert r[34 + j] == ReplyByte(rx, mac, ip, 34 + j);
    }
  }

  /** The padding does not touch the header, nor a message that has both headers. */
  lemma PaddedReplyVerifies(t: seq<byte>, rx: seq<byte>, mac: seq<byte>, ip: seq<byte>)
    requires HasRoom(rx, |t|, mac, ip)
    requires forall j :: 0 <= j < |t| && j < ReplyLength(rx) && j < 14 + TotalLength(rx) ==> t[j] == Reply(rx, mac, ip)[j]
    ensures TotalLength(rx) >= 20 ==> Verifies(t[14..34])
    ensures 28 <= TotalLength(rx) && rx[34] == 8 && rx[35] == 0 && Verifies(rx[34..14 + TotalLength(rx)]) ==> Verifies(t[34..14 + TotalLength(rx)])
  {
    hide Verifies, ReplyByte;
    var r, n := Reply(rx, mac, ip), 14 + TotalLength(rx);
    if TotalLength(rx) >= 20 {
      ReplyHeaderVerifies(rx, mac, ip);
      assert t[14..34] == r[14..34];
    }
    if 28 <= TotalLength(rx) && rx[34] == 8 && rx[35] == 0 && Verifies(rx[34..n]) {
      ReplyMessageVerifies(rx, mac, ip);
      assert t[34..n] == r[34..];
    }
  }

  /** The reply's fields, for a request that announces at least its three headers. */
  lemma ReplyLayout(rx: seq<byte>, mac: seq<byte>, ip: seq<byte>, r: seq<byte>)
    requires Request(rx, mac, ip) && 28 <= TotalLength(rx) && r == Reply(rx, mac, ip)
    ensures r == rx[6..12] + mac + [8, 0, 0x45, 0, rx[16], rx[17], 0, 0, 0, 0, 0x40, 1] + r[24..26]
                 + ip + rx[26..30] + [0, 0] + r[36..38] + rx[38..14 + TotalLength(rx)]
    ensures 256 * r[24] as int + r[25] == Rfc1071(r[14..24] + [0, 0] + r[26..34])
    ensures var c := 256 * rx[36] as int + rx[37] + 0x0800;
            256 * r[36] as int + r[37] == if c > M then c - M else c
  {
    var total := TotalLength(rx);
    EchoIsOnesAdd(Word16(rx[36], rx[37]));
    ChecksumField(total, ip, rx[26..30]);
    ReplyHead(rx, mac, ip, r);
    ReplyRest(rx, mac, ip, r);
    hide EchoChecksum, HeaderChecksum, Rfc1071, Reply, HeaderStart;
    assert r[14..24] + [0, 0] + r[26..34] == HeaderStart(total) + [0, 0] + (ip + rx[26..30]);
    EightParts(r);
  }

  /** Addresses, type, and the header up to its checksum. */
  lemma ReplyHead(rx: seq<byte>, mac: seq<byte>, ip: seq<byte>, r: seq<byte>)
    requires Request(rx, mac, ip) && 28 <= TotalLength(rx) && r == Reply(rx, mac, ip)
    ensures r[..12] == rx[6..12] + mac
    ensures r[12..24] == [8, 0, 0x45, 0, rx[16], rx[17], 0, 0, 0, 0, 0x40, 1]
    ensures r[14..24] == HeaderStart(TotalLength(rx))
  {
    hide EchoChecksum, HeaderChecksum, Pair;
    var total := TotalLength(rx);
    assert total / 256 == rx[16] as int && total % 256 == rx[17] as int;
    assert r[14..24] == HeaderStart(total);
    assert r[12..24] == [8, 0] + r[14..24];
  }

  /** The checksum field, the IP addresses and the message. */
  lemma ReplyRest(rx: seq<byte>, mac: seq<byte>, ip: seq<byte>, r: seq<byte>)
    requires Request(rx, mac, ip) && 28 <= TotalLength(rx) && r == Reply(rx, mac, ip)
    ensures 256 * r[24] as int + r[25] == HeaderChecksum(TotalLength(rx), ip, rx[26..30])
    ensures r[26..34] == ip + rx[26..30] && r[26..36] == ip + rx[26..30] + [0, 0]
    ensures 256 * r[36] as int + r[37] == EchoChecksum(Word16(rx[36], rx[37]))
    ensures r[38..] == rx[38..14 + TotalLength(rx)]
  {
    hide EchoChecksum, HeaderChecksum, HeaderStart;
    assert r[26..34] == ip + rx[26..30];
    assert r[26..36] == r[26..34] + [0, 0];
  }

  lemma EightParts(r: seq<byte>)
    requires 42 <= |r|
    ensures r == r[..12] + r[12..24] + r[24..26] + r[26..36] + r[36..38] + r[38..]
  {}

  lemma ChecksumField(total: int, ip: seq<byte>, peer: seq<byte>)
    requires 0 <= total <= M
    ensures HeaderChecksum(total, ip, peer) == Rfc1071(HeaderStart(total) + [0, 0] + (ip + peer))
  {}

  /** The frame holds the reply, padded with zeros to 64 bytes. */
  method WriteReply(rx: seq<byte>, tx: array<byte>, mac: seq<byte>, ip: seq<byte>) returns (pad: int)
    requires HasRoom(rx, tx.Length, mac, ip)
    modifies tx
    ensures pad == if 14 + TotalLength(rx) < 64 then 64 else 14 + TotalLength(rx)
    ensures forall j :: 0 <= j < tx.Length ==>
              tx[j] == if 14 + TotalLength(rx) <= j < 64 then 0
                       else if j < ReplyLength(rx) then Reply(rx, mac, ip)[j]
                       else old(tx[j])
  {
    ghost var was := tx[..];
    TopHalf(rx, 9);
    TopHalf(rx, 4);
    ReplyComplete(was, rx, mac, ip);
    AddressedIp(was, rx, mac, ip);
    hide Addressed, HeaderChecksum, EchoChecksum, ByteRev, LoadWord, Completed, ReplyByte, Pair, Word16, Reply, ReplyLength;
    var icmp := ByteRev(LoadWord(rx, 9)) / 0x1_0000;
    var total := ByteRev(LoadWord(rx, 4)) / 0x1_0000;
    WriteFields(rx, tx, mac, ip);
    WriteChecksums(tx, total, icmp, ip, rx[26..30]);
    pad := PadFrame(tx, 42 + (total - 28));
    assert forall j :: 0 <= j < tx.Length ==> was[j] == old(tx[j]);
  }

  /** build_icmp_response(): the fields of the reply, zeros up to byte 64, and the rest of the
      buffer untouched.  The length is the one in bytes 16 and 17 of the request. */
  method BuildIcmpResponse(rx: seq<byte>, tx: array<byte>, mac: seq<byte>, ip: seq<byte>) returns (pad: int)
    requires 42 <= |rx| && |mac| == 6 && |ip| == 4 && 64 <= tx.Length
    requires 14 + 256 * rx[16] as int + rx[17] <= |rx| && 14 + 256 * rx[16] as int + rx[17] <= tx.Length
    modifies tx
    ensures pad == if 14 + 256 * rx[16] as int + rx[17] < 64 then 64 else 14 + 256 * rx[16] as int + rx[17]
    ensures var n := 14 + 256 * rx[16] as int + rx[17];
            42 <= n ==>
              && tx[..n] == rx[6..12] + mac + [8, 0, 0x45, 0, rx[16], rx[17], 0, 0, 0, 0, 0x40, 1] + tx[24..26]
                            + ip + rx[26..30] + [0, 0] + tx[36..38] + rx[38..n]
              && 256 * tx[24] as int + tx[25] == Rfc1071(tx[14..24] + [0, 0] + tx[26..34])
              && var c := 256 * rx[36] as int + rx[37] + 0x0800;
                 256 * tx[36] as int + tx[37] == if c > 0xFFFF then c - 0xFFFF else c
    ensures forall j :: 14 + 256 * rx[16] as int + rx[17] <= j < 64 ==> tx[j] == 0
    ensures forall j :: pad <= j < tx.Length ==> tx[j] == old(tx[j])
    // a length field too small for the headers cuts them off
    ensures forall j :: 0 <= j < 14 + 256 * rx[16] as int + rx[17] && j < ReplyLength(rx) ==> tx[j] == Reply(rx, mac, ip)[j]
    // checksum_ip accepts the header, and a valid echo request gets a valid reply
    ensures 20 <= 256 * rx[16] as int + rx[17] ==> Verifies(tx[14..34])
    ensures var n := 14 + 256 * rx[16] as int + rx[17];
            42 <= n && rx[34] == 8 && rx[35] == 0 && Verifies(rx[34..n]) ==> Verifies(tx[34..n])
  {
    LengthInBytes(rx);
    hide TotalLength, ReplyLength, Reply, Verifies, Rfc1071;
    pad := WriteReply(rx, tx, mac, ip);
    ghost var t := tx[..];
    PaddedReplyVerifies(t, rx, mac, ip);
    if 28 <= TotalLength(rx) {
      ReplyLayout(rx, mac, ip, Reply(rx, mac, ip));
      assert t[..14 + TotalLength(rx)] == Reply(rx, mac, ip);
      SameSlices(t, Reply(rx, mac, ip));
    }
  }

  lemma LengthInBytes(rx: seq<byte>)
    requires 42 <= |rx|
    ensures TotalLength(rx) == 256 * rx[16] as int + rx[17]
    ensures ReplyLength(rx) == if 28 <= TotalLength(rx) then 14 + TotalLength(rx) else 42
  {}

  /** The slices ReplyLayout speaks of are the same in the buffer. */
  lemma SameSlices(t: seq<byte>, r: seq<byte>)
    requires 42 <= |r| <= |t| && t[..|r|] == r
    ensures t[24..26] == r[24..26] && t[36..38] == r[36..38] && t[14..24] == r[14..24] && t[26..34] == r[26..34]
    ensures t[24] == r[24] && t[25] == r[25] && t[36] == r[36] && t[37] == r[37]
  {}
}
