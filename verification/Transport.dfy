/** The data transaction of a frame request: mac_rx_send_frame1 puts bytes on the channel,
    ethernet_unified_get_data takes them off and fills the client's buffer. */
module Transport {
  import opened Bytes
  import opened RingPool
  import Stream

  const TIMER_OFFSET := -48           // ETHERNET_RX_PHY_TIMER_OFFSET
  const STATUS_LEN := -1              // STATUS_PACKET_LEN

  datatype Command = FullFrame | Offset2 | PayloadOnly

  /** An int output sends the most significant byte first; a char output sends one byte. */
  function Out(w: int): (bs: seq<int>)
    ensures |bs| == 4
  {
    [Byte(w, 3), Byte(w, 2), Byte(w, 1), Byte(w, 0)]
  }

  /** The bytes that carry the words, in memory order or most significant byte first. */
  function Flat(words: seq<int>, reversed: bool): (bs: seq<int>)
    ensures |bs| == 4 * |words|
  {
    seq(4 * |words|, j requires 0 <= j < 4 * |words| =>
      Byte(words[j / 4], if reversed then j % 4 else 3 - j % 4))
  }

  lemma FlatAppend(words: seq<int>, w: int, reversed: bool)
    ensures Flat(words + [w], reversed) == Flat(words, reversed) + (if reversed then Out(ByteRev(w)) else Out(w))
  {
    ByteOfIn(Byte(w, 0), Byte(w, 1), Byte(w, 2), Byte(w, 3));
  }

  function WordCount(length: nat): nat { (length + 3) / 4 }

  /** The length word a request is answered with. */
  function Sized(length: int, cmd: Command): int { if cmd.PayloadOnly? then length - 12 else length }

  /** The data part of the transaction. */
  function Body(words: seq<int>, cmd: Command): seq<int> {
    if cmd.Offset2? then [0, 0] + Flat(words, true) + [0, 0] else Flat(words, false)
  }

  /** What the transaction puts on the channel for the streamed words. */
  function FrameWire(words: seq<int>, length: int, cmd: Command, port: int, user: int, time: int): seq<int> {
    Out(port) + Out(Sized(length, cmd)) + Out(user) + Body(words, cmd) + Out(time + TIMER_OFFSET)
  }

  /** How many words are streamed: a payload-only request starts counting at word 3. */
  function SentCount(length: nat, cmd: Command): nat {
    if !cmd.PayloadOnly? then WordCount(length) else if WordCount(length) >= 3 then WordCount(length) - 3 else 0
  }

  /** The words streamed, for every request from the first data word on. */
  function Sent(r: Pool, p: int, cmd: Command): seq<int>
    requires r.WellFormed() && r.Usable(p - HEADER) && r.mem[p - HEADER + LENGTH] >= 0
  {
    Stream.StreamFrom(r, p - HEADER + DATA, SentCount(r.mem[p - HEADER + LENGTH], cmd))
  }

  lemma StreamNone(r: Pool, dptr: int)
    ensures Stream.Cursor(r, dptr, 0) == dptr && Stream.StreamFrom(r, dptr, 0) == []
    ensures Flat([], true) == Flat([], false) == []
  {}

  /** mac_rx_send_frame1: p is the buffer, i.e. the record's address plus HEADER. */
  method SendFrame1(r: Pool, p: int, cmd: Command, port: int, user: int, time: int) returns (wire: seq<int>)
    requires r.WellFormed() && r.Usable(p - HEADER) && r.mem[p - HEADER + LENGTH] >= 0
    ensures wire == FrameWire(Sent(r, p, cmd), r.mem[p - HEADER + LENGTH], cmd, port, user, time)
  {
    hide Byte, Out, ByteRev, Flat, Stream.Cursor, Stream.StreamFrom;
    var dptr := p + (DATA - HEADER);
    var wrapPtr := r.End();
    var i := if cmd.PayloadOnly? then 3 else 0;
    var length := r.mem[p - HEADER + LENGTH];
    ghost var first, dptr0 := i, dptr;
    StreamNone(r, dptr0);
    wire := Out(port) + Out(length - i * 4) + Out(user);
    if cmd.Offset2? {
      wire := wire + [0, 0];
    }
    ghost var before, body := wire, [];
    while i < (length + 3) / 4
      invariant first <= i && (i <= WordCount(length) || i == first)
      invariant START <= dptr <= r.End() && dptr == Stream.Cursor(r, dptr0, i - first)
      invariant wire == before + body && body == Flat(Stream.StreamFrom(r, dptr0, i - first), cmd.Offset2?)
    {
      Stream.StreamAppend(r, dptr0, i - first);
      Stream.StreamOne(r, dptr);
      if dptr == wrapPtr {
        dptr := r.mem[dptr];
      }
      var datum := r.mem[dptr];
      FlatAppend(Stream.StreamFrom(r, dptr0, i - first), datum, cmd.Offset2?);
      ghost var bytes := if cmd.Offset2? then Out(ByteRev(datum)) else Out(datum);
      body := body + bytes;
      wire := wire + if cmd.Offset2? then Out(ByteRev(datum)) else Out(datum);
      dptr := dptr + 1;
      i := i + 1;
    }
    assert Stream.StreamFrom(r, dptr0, i - first) == Sent(r, p, cmd);
    if cmd.Offset2? {
      wire := wire + [0, 0];
    }
    wire := wire + Out(time + TIMER_OFFSET);
  }

  /** Byte j of what an unlimited request would put into the client's buffer. */
  function Delivered(words: seq<int>, cmd: Command, j: nat): int {
    var k := if cmd.Offset2? then j - 2 else j;
    if 0 <= k < 4 * |words| then FrameByte(words, k) else 0
  }

  function Announced(length: int, cmd: Command): int {
    if cmd.Offset2? then length + 4 else Sized(length, cmd)
  }

  function ReadWord(w: seq<int>, pos: nat): int
    requires pos + 4 <= |w|
  {
    In(w[pos], w[pos + 1], w[pos + 2], w[pos + 3])
  }

  lemma BodyOnWire(words: seq<int>, length: int, cmd: Command, port: int, user: int, time: int, j: nat)
    requires j < |Body(words, cmd)|
    ensures 12 + j < |FrameWire(words, length, cmd, port, user, time)|
    ensures FrameWire(words, length, cmd, port, user, time)[12 + j] == Body(words, cmd)[j]
  {
    var head := Out(port) + Out(Sized(length, cmd)) + Out(user);
    assert FrameWire(words, length, cmd, port, user, time) == head + Body(words, cmd) + Out(time + TIMER_OFFSET);
  }

  /** The word the client makes of four bytes. */
  function Received(b0: int, b1: int, b2: int, b3: int, cmd: Command): int {
    var w := In(b0, b1, b2, b3);
    if cmd.Offset2? then ByteRev(w) else w
  }

  lemma ReceivedBytes(b0: int, b1: int, b2: int, b3: int, cmd: Command)
    requires IsByte(b0) && IsByte(b1) && IsByte(b2) && IsByte(b3)
    ensures var w, o := Received(b0, b1, b2, b3, cmd), cmd.Offset2?;
            && Byte(w, 0) == (if o then b0 else b3) && Byte(w, 1) == (if o then b1 else b2)
            && Byte(w, 2) == (if o then b2 else b1) && Byte(w, 3) == (if o then b3 else b0)
  {
    ByteOfIn(b0, b1, b2, b3);
    ByteOfIn(b3, b2, b1, b0);
  }

  lemma Quarter(i: int, k: int)
    requires 0 <= k < 4
    ensures (4 * i + k) / 4 == i && (4 * i + k) % 4 == k
  {}

  lemma ByteIsByte(w: int, k: int)
    ensures IsByte(Byte(w, k))
  {}

  /** Bytes 4*i .. 4*i+3 of the body make the word with delivered bytes 4*i .. 4*i+3. */
  lemma BodyWord(words: seq<int>, cmd: Command, i: nat, k: nat)
    requires 4 * i + 4 <= |Body(words, cmd)| && k < 4
    requires !cmd.Offset2? ==> i < |words|
    ensures IsByte(Body(words, cmd)[4 * i + k])
    ensures Delivered(words, cmd, 4 * i + k)
            == if cmd.Offset2? then Body(words, cmd)[4 * i + k] else Body(words, cmd)[4 * i + (3 - k)]
  {
    hide Byte, Delivered, Body;
    if cmd.Offset2? {
      ShiftedBody(words, 4 * i + k);
    } else {
      StraightBody(words, cmd, i, k);
      StraightBody(words, cmd, i, 3 - k);
    }
  }

  lemma StraightBody(words: seq<int>, cmd: Command, i: nat, k: nat)
    requires !cmd.Offset2? && i < |words| && k < 4
    ensures |Body(words, cmd)| == 4 * |words|
    ensures IsByte(Body(words, cmd)[4 * i + k]) && Body(words, cmd)[4 * i + k] == Byte(words[i], 3 - k)
    ensures Delivered(words, cmd, 4 * i + k) == Byte(words[i], k)
  {
    hide Byte;
    var j := 4 * i + k;
    Quarter(i, k);
    ByteIsByte(words[i], 3 - k);
    assert Flat(words, false)[j] == Byte(words[j / 4], 3 - j % 4);
    assert FrameByte(words, j) == Byte(words[j / 4], j % 4);
  }

  lemma ShiftedBody(words: seq<int>, j: nat)
    requires j < |Body(words, Offset2)|
    ensures IsByte(Body(words, Offset2)[j]) && Body(words, Offset2)[j] == Delivered(words, Offset2, j)
  {
    hide Byte;
    var b := Body(words, Offset2);
    if j < 2 {
      assert b[j] == 0;
    } else if j < 2 + 4 * |words| {
      assert b[j] == Flat(words, true)[j - 2];
      ByteIsByte(words[(j - 2) / 4], (j - 2) % 4);
    } else {
      assert b[j] == [0, 0][j - 2 - 4 * |words|];
    }
  }

  /** w carries delivered bytes 4*i .. 4*i+3. */
  predicate CarriesBytes(w: int, words: seq<int>, cmd: Command, i: nat) {
    && Byte(w, 0) == Delivered(words, cmd, 4 * i) && Byte(w, 1) == Delivered(words, cmd, 4 * i + 1)
    && Byte(w, 2) == Delivered(words, cmd, 4 * i + 2) && Byte(w, 3) == Delivered(words, cmd, 4 * i + 3)
  }

  lemma BodyCarries(words: seq<int>, cmd: Command, i: nat)
    requires 4 * i + 4 <= |Body(words, cmd)|
    ensures var b, j := Body(words, cmd), 4 * i;
            CarriesBytes(Received(b[j], b[j + 1], b[j + 2], b[j + 3], cmd), words, cmd, i)
  {
    hide Byte, Delivered, Received, IsByte, Flat;
    assert !cmd.Offset2? ==> i < |words|;
    hide Body;
    var b, j := Body(words, cmd), 4 * i;
    BodyWord(words, cmd, i, 0);
    BodyWord(words, cmd, i, 1);
    BodyWord(words, cmd, i, 2);
    BodyWord(words, cmd, i, 3);
    ReceivedBytes(b[j], b[j + 1], b[j + 2], b[j + 3], cmd);
  }

  lemma WordOnWire(words: seq<int>, length: int, cmd: Command, port: int, user: int, time: int, i: nat)
    requires 4 * i + 4 <= |Body(words, cmd)|
    ensures var w := FrameWire(words, length, cmd, port, user, time);
            var pos := 12 + 4 * i;
            && pos + 4 <= |w|
            && CarriesBytes(Received(w[pos], w[pos + 1], w[pos + 2], w[pos + 3], cmd), words, cmd, i)
  {
    hide Received, CarriesBytes, FrameWire, Body;
    BodyOnWire(words, length, cmd, port, user, time, 4 * i);
    BodyOnWire(words, length, cmd, port, user, time, 4 * i + 1);
    BodyOnWire(words, length, cmd, port, user, time, 4 * i + 2);
    BodyOnWire(words, length, cmd, port, user, time, 4 * i + 3);
    BodyCarries(words, cmd, i);
  }

  lemma ReadBack(words: seq<int>, length: int, cmd: Command, port: int, user: int, time: int)
    ensures var w := FrameWire(words, length, cmd, port, user, time);
            && |w| == 16 + |Body(words, cmd)|
            && ReadWord(w, 0) == port % TWO32
            && ReadWord(w, 4) == Sized(length, cmd) % TWO32
            && ReadWord(w, 8) == user % TWO32
            && ReadWord(w, |w| - 4) == (time + TIMER_OFFSET) % TWO32
  {
    hide Byte, Flat, In;
    var w := FrameWire(words, length, cmd, port, user, time);
    var len := Sized(length, cmd);
    InOfOut(port);
    InOfOut(len);
    InOfOut(user);
    InOfOut(time + TIMER_OFFSET);
    assert w == Out(port) + Out(len) + Out(user) + Body(words, cmd) + Out(time + TIMER_OFFSET);
    assert w[0..4] == Out(port) && w[4..8] == Out(len) && w[8..12] == Out(user);
    assert w[|w| - 4..] == Out(time + TIMER_OFFSET);
  }

  /** The first `done` bytes below the bound have been delivered, the rest is as before. */
  predicate FilledUpTo(now: seq<int>, was: seq<int>, words: seq<int>, cmd: Command, done: int, bound: int) {
    && |now| == |was|
    && forall l :: 0 <= l < |now| ==> now[l] == if l < done && l < bound then Delivered(words, cmd, l) else was[l]
  }

  lemma FillOne(now: seq<int>, was: seq<int>, words: seq<int>, cmd: Command, done: nat, bound: int)
    requires FilledUpTo(now, was, words, cmd, done, bound) && (done < bound ==> done < |now|)
    ensures done < bound ==> FilledUpTo(now[done := Delivered(words, cmd, done)], was, words, cmd, done + 1, bound)
    ensures done >= bound ==> FilledUpTo(now, was, words, cmd, done + 1, bound)
  {}

  lemma FillNone(was: seq<int>, words: seq<int>, cmd: Command, bound: int)
    ensures FilledUpTo(was, was, words, cmd, 0, bound)
  {}

  lemma FillAll(now: seq<int>, was: seq<int>, words: seq<int>, cmd: Command, done: nat, count: int, limit: int)
    requires FilledUpTo(now, was, words, cmd, done, if count < limit then count else limit) && count <= done
    ensures FilledUpTo(now, was, words, cmd, count, limit)
  {}

  /** The client reads as many words as the server sends. */
  lemma TransferLength(words: seq<int>, length: int, cmd: Command)
    requires 0 <= length && (cmd.PayloadOnly? ==> 12 <= length)
    requires |words| == WordCount(Sized(length, cmd))
    ensures 4 * ((Announced(length, cmd) + 3) / 4) == |Body(words, cmd)|
  {
    hide Byte;
    assert (length + 4 + 3) / 4 == (length + 3) / 4 + 1;
  }

  /** What the server answers: a frame, or the link status when one is due. */
  datatype Reply =
    | FrameReply(words: seq<int>, length: int, port: int, user: int, time: int)
    | StatusReply(port: int, status: int)

  function Wire(reply: Reply, cmd: Command): seq<int> {
    match reply
    case FrameReply(words, length, port, user, time) => FrameWire(words, length, cmd, port, user, time)
    case StatusReply(port, status) => Out(port) + Out(STATUS_LEN) + Out(0) + Out(status)
  }

  /** What a server can send: a frame is shorter than 2^31 bytes, a payload-only request is for
      a frame that holds two addresses, and as many words are streamed as the count says. */
  predicate Sendable(reply: Reply, cmd: Command) {
    reply.FrameReply? ==>
      && 0 <= reply.length < 0x8000_0000 && (cmd.PayloadOnly? ==> 12 <= reply.length)
      && |reply.words| == WordCount(Sized(reply.length, cmd))
  }

  lemma StatusBack(port: int, status: int, cmd: Command)
    ensures var w := Wire(StatusReply(port, status), cmd);
            && |w| == 16 && ReadWord(w, 0) == port % TWO32 && ReadWord(w, 4) == TWO32 - 1
            && ReadWord(w, 8) == 0 && ReadWord(w, 12) == status % TWO32
  {
    hide Byte, In;
    InOfOut(port);
    InOfOut(STATUS_LEN);
    InOfOut(0);
    InOfOut(status);
    var w := Wire(StatusReply(port, status), cmd);
    assert w[0..4] == Out(port) && w[4..8] == Out(STATUS_LEN) && w[8..12] == Out(0) && w[12..16] == Out(status);
  }

  /** The loops of lines 64-83: transferCnt words are taken off the channel from byte 12 on. */
  method TakeBytes(wire: seq<int>, cmd: Command, rxByteCnt: int, limit: int, buf: array<int>, ghost reply: Reply)
    returns (pos: nat)
    requires reply.FrameReply? && wire == Wire(reply, cmd) && Sendable(reply, cmd)
    requires rxByteCnt == Announced(reply.length, cmd)
    requires rxByteCnt <= buf.Length || limit <= buf.Length
    modifies buf
    ensures pos == 12 + |Body(reply.words, cmd)|
    ensures FilledUpTo(buf[..], old(buf[..]), reply.words, cmd, rxByteCnt, limit)
  {
    hide Delivered, Byte, In, Flat, FrameWire, ReadWord, Body, Received, FilledUpTo;
    ghost var was := buf[..];
    pos := 12;
    ghost var bound := if rxByteCnt < limit then rxByteCnt else limit;
    var transferCnt := (rxByteCnt + 3) / 4;
    TransferLength(reply.words, reply.length, cmd);
    FillNone(was, reply.words, cmd, bound);
    hide Announced, WordCount;
    var j, i := 0, 0;
    while i < transferCnt
      invariant 0 <= i <= transferCnt && j == 4 * i && pos == 12 + 4 * i
      invariant FilledUpTo(buf[..], was, reply.words, cmd, j, bound)
    {
      WordOnWire(reply.words, reply.length, cmd, reply.port, reply.user, reply.time, i);
      var rxData := Received(wire[pos], wire[pos + 1], wire[pos + 2], wire[pos + 3], cmd);
      pos := pos + 4;
      j := TakeWord(rxData, cmd, rxByteCnt, limit, buf, i, was, reply.words);
      i := i + 1;
    }
    FillAll(buf[..], was, reply.words, cmd, j, rxByteCnt, limit);
  }

  /** Lines 73-82: the four bytes of one word. */
  method TakeWord(rxData: int, cmd: Command, rxByteCnt: int, limit: int, buf: array<int>, i: nat,
                  ghost was: seq<int>, ghost words: seq<int>)
    returns (j: int)
    requires CarriesBytes(rxData, words, cmd, i)
    requires rxByteCnt <= buf.Length || limit <= buf.Length
    requires FilledUpTo(buf[..], was, words, cmd, 4 * i, if rxByteCnt < limit then rxByteCnt else limit)
    modifies buf
    ensures j == 4 * i + 4
    ensures FilledUpTo(buf[..], was, words, cmd, j, if rxByteCnt < limit then rxByteCnt else limit)
  {
    hide Delivered, Byte, FilledUpTo;
    ghost var bound := if rxByteCnt < limit then rxByteCnt else limit;
    j := 4 * i;
    var k := 0;
    while k < 4
      invariant 0 <= k <= 4 && j == 4 * i + k
      invariant FilledUpTo(buf[..], was, words, cmd, j, bound)
    {
      ghost var now := buf[..];
      FillOne(now, was, words, cmd, j, bound);
      assert Byte(rxData, k) == Delivered(words, cmd, j);
      if j < rxByteCnt && j < limit {
        buf[j] := Byte(rxData, k);      // (unsigned char)(rxData >> (k * 8))
        assert buf[..] == now[j := Delivered(words, cmd, j)];
      }
      j := j + 1;
      k := k + 1;
    }
  }

  /** ethernet_unified_get_data, from the reply on.  n is an int in the source and is compared
      as an unsigned, so -1 means no limit.  rxTime is left alone by a status packet. */
  method GetData(wire: seq<int>, cmd: Command, n: int, buf: array<int>, rxTime0: int, ghost reply: Reply)
    returns (rxByteCnt: int, srcPort: int, userData: int, rxTime: int, ghost consumed: nat)
    requires wire == Wire(reply, cmd) && Sendable(reply, cmd)
    requires reply.FrameReply? ==> Announced(reply.length, cmd) <= buf.Length || n % TWO32 <= buf.Length
    requires reply.StatusReply? ==> 0 < buf.Length
    modifies buf
    ensures consumed == |wire| && srcPort == reply.port % TWO32
    ensures reply.FrameReply? ==>
              && rxByteCnt == Announced(reply.length, cmd)
              && userData == reply.user % TWO32 && rxTime == (reply.time + TIMER_OFFSET) % TWO32
              && FilledUpTo(buf[..], old(buf[..]), reply.words, cmd, rxByteCnt, n % TWO32)
    ensures reply.StatusReply? ==>
              && rxByteCnt == STATUS_LEN % TWO32 && userData == 0 && rxTime == rxTime0
              && buf[..] == old(buf[..])[0 := reply.status % 256]
  {
    hide Delivered, In, Flat, FrameWire, ReadWord, Body, FilledUpTo;
    if reply.FrameReply? {
      ReadBack(reply.words, reply.length, cmd, reply.port, reply.user, reply.time);
    } else {
      StatusBack(reply.port, reply.status, cmd);
    }
    srcPort := ReadWord(wire, 0);
    rxByteCnt := ReadWord(wire, 4);
    userData := ReadWord(wire, 8);
    rxTime := rxTime0;
    if rxByteCnt == STATUS_LEN % TWO32 {
      var status := ReadWord(wire, 12);
      LowByte(reply.status);
      buf[0] := Byte(status, 0);
      consumed := 16;
    } else {
      if cmd.Offset2? {
        rxByteCnt := rxByteCnt + 4;
      }
      var pos := TakeBytes(wire, cmd, rxByteCnt, n % TWO32, buf, reply);
      rxTime := ReadWord(wire, pos);
      consumed := pos + 4;
    }
  }

  lemma LowByte(w: int)
    ensures Byte(w % TWO32, 0) == w % 256
  {
    assert w == w / TWO32 * 0x100_0000 * 256 + w % TWO32;
  }

  // ---------- server and client together ----------

  /** The frame bytes stored for the record at p - HEADER. */
  function FrameBytes(words: seq<int>, length: nat): seq<int>
    requires length <= 4 * |words|
  {
    seq(length, j requires 0 <= j < length => FrameByte(words, j))
  }

  /** A frame whose bytes repeat with period 12. */
  predicate SelfSimilar(data: seq<int>, length: nat)
    requires 12 <= length <= 4 * |data|
  {
    forall j {:trigger FrameBytes(data, length)[j]} :: 0 <= j < length - 12 ==>
      FrameBytes(data, length)[j] == FrameBytes(data, length)[j + 12]
  }

  /** Byte j an unlimited request delivers of a frame: of a full-frame or payload-only request
      byte j of the frame; of an offset-2 request two zeros, the frame, and two more bytes, which
      pad its last word or are zero. */
  function Expected(data: seq<int>, length: nat, cmd: Command, j: nat): int
    requires WordCount(length) <= |data| && j < length + 4
  {
    if !cmd.Offset2? then (if j < length then FrameBytes(data, length)[j] else 0)
    else if 2 <= j < length + 2 then FrameBytes(data, length)[j - 2]
    else if 2 <= j < 4 * WordCount(length) + 2 then FrameByte(data, j - 2)
    else 0
  }

  /** The bytes below the count and the limit are delivered, the others are as before. */
  predicate BufferHolds(now: seq<int>, was: seq<int>, data: seq<int>, length: nat, cmd: Command, limit: int)
    requires WordCount(length) <= |data|
  {
    && |now| == |was|
    && (forall j :: 0 <= j < |now| && (j >= Announced(length, cmd) || j >= limit) ==> now[j] == was[j])
    && (forall j :: 0 <= j < |now| && j < Announced(length, cmd) && j < limit ==>
          now[j] == Expected(data, length, cmd, j))
  }

  /** For a committed record, whatever the request and its limit: the buffer holds the frame as
      the request shifts or cuts it, and nothing is left on the channel. */
  method Receive(r: Pool, ghost q: seq<Packet>, ghost m: nat, p: int, cmd: Command, n: int, buf: array<int>,
                 port: int, user: int, time: int)
    returns (rxByteCnt: int)
    requires Chain(r, q) && m < |q| && p == q[m].addr + HEADER
    requires q[m].length < 0x8000_0000 && (cmd.PayloadOnly? ==> 12 <= q[m].length)
    requires Announced(q[m].length, cmd) <= buf.Length || n % TWO32 <= buf.Length
    modifies buf
    ensures 0 <= q[m].length && WordCount(q[m].length) <= |q[m].data| && rxByteCnt == Announced(q[m].length, cmd)
    ensures BufferHolds(buf[..], old(buf[..]), q[m].data, q[m].length, cmd, n % TWO32)
    // the payload is delivered only of a frame that repeats itself with period 12
    ensures cmd.PayloadOnly? && rxByteCnt <= n % TWO32 ==>
              ((forall j :: 0 <= j < rxByteCnt ==> buf[..][j] == FrameBytes(q[m].data, q[m].length)[j + 12])
               <==> SelfSimilar(q[m].data, q[m].length))
  {
    CommittedTransfer(r, q, m, cmd);
    hide Chain, FrameWire, FilledUpTo, Sent, FrameBytes, Delivered, BufferHolds, SelfSimilar, Expected;
    ghost var words, was := Sent(r, p, cmd), buf[..];
    var wire := SendFrame1(r, p, cmd, port, user, time);
    var srcPort, userData, rxTime;
    ghost var consumed;
    rxByteCnt, srcPort, userData, rxTime, consumed :=
      GetData(wire, cmd, n, buf, 0, FrameReply(words, r.mem[p - HEADER + LENGTH], port, user, time));
    assert consumed == |wire|;
    FilledBytes(buf[..], was, words, q[m].data, q[m].length, cmd, n % TWO32);
    if cmd.PayloadOnly? && rxByteCnt <= n % TWO32 {
      PayloadRequestIff(buf[..], was, q[m].data, q[m].length, n % TWO32);
    }
  }

  /** The words sent for a committed record, and their number. */
  lemma CommittedTransfer(r: Pool, q: seq<Packet>, m: nat, cmd: Command)
    requires Chain(r, q) && m < |q| && (cmd.PayloadOnly? ==> 12 <= q[m].length)
    ensures r.WellFormed() && r.Usable(q[m].addr) && r.mem[q[m].addr + LENGTH] == q[m].length
    ensures 0 <= q[m].length && WordCount(q[m].length) <= |q[m].data| && SentCount(q[m].length, cmd) <= |q[m].data|
    ensures SentCount(q[m].length, cmd) == WordCount(Sized(q[m].length, cmd))
    ensures Sent(r, q[m].addr + HEADER, cmd) == q[m].data[..SentCount(q[m].length, cmd)]
  {
    var p := q[m];
    assert RecordAt(r, q, m);
    hide Chain;
    var n := SentCount(p.length, cmd);
    hide Stream.StreamFrom, Stream.GetData, SentCount;
    forall k | 0 <= k < n
      ensures Sent(r, p.addr + HEADER, cmd)[k] == p.data[k]
    {
      Stream.StreamIsRandomAccess(r, p.addr, n, k);
      assert r.mem[r.Word(p.addr, DATA + k)] == p.data[k];
    }
  }

  lemma FilledBytes(now: seq<int>, was: seq<int>, words: seq<int>, data: seq<int>, length: nat, cmd: Command, limit: int)
    requires WordCount(length) <= |data| && (cmd.PayloadOnly? ==> 12 <= length)
    requires words == data[..SentCount(length, cmd)] && FilledUpTo(now, was, words, cmd, Announced(length, cmd), limit)
    ensures BufferHolds(now, was, data, length, cmd, limit)
  {
    hide Byte;
    forall j: nat | j < Announced(length, cmd)
      ensures Delivered(words, cmd, j) == Expected(data, length, cmd, j)
    {
      var k := if cmd.Offset2? then j - 2 else j;
      if 0 <= k < 4 * |words| { assert words[k / 4] == data[k / 4]; }
    }
  }

  /** A payload-only request delivers the first length - 12 bytes of the frame, because the
      streaming pointer is not advanced past the addresses; so it delivers the payload exactly
      when the frame repeats itself with period 12. */
  lemma PayloadRequestIff(now: seq<int>, was: seq<int>, data: seq<int>, length: nat, limit: int)
    requires 12 <= length && WordCount(length) <= |data| && length - 12 <= limit && length - 12 <= |now|
    requires BufferHolds(now, was, data, length, PayloadOnly, limit)
    ensures (forall j :: 0 <= j < length - 12 ==> now[j] == FrameBytes(data, length)[j + 12])
            <==> SelfSimilar(data, length)
  {
    var frame := FrameBytes(data, length);
    assert forall j :: 0 <= j < length - 12 ==> now[j] == Expected(data, length, PayloadOnly, j) == frame[j];
    if SelfSimilar(data, length) {
      forall j | 0 <= j < length - 12
        ensures now[j] == frame[j + 12]
      {
        assert frame[j] == FrameBytes(data, length)[j];
      }
    }
    if forall j :: 0 <= j < length - 12 ==> now[j] == frame[j + 12] {
      forall j | 0 <= j < length - 12
        ensures FrameBytes(data, length)[j] == FrameBytes(data, length)[j + 12]
      {
        assert now[j] == frame[j + 12];
      }
    }
  }

  /** A minimal frame whose payload a payload-only request does not deliver: all bytes are zero
      but the first of the payload. */
  lemma PayloadRequestFails() returns (data: seq<int>)
    ensures |data| == 15 && FrameBytes(data, 60)[12] == 1 && FrameBytes(data, 60)[0] == 0
    ensures !SelfSimilar(data, 60)
  {
    data := seq(15, k => if k == 3 then 1 else 0);
    assert FrameBytes(data, 60)[0] != FrameBytes(data, 60)[0 + 12];
  }
}
