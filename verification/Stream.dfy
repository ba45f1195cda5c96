/** Reading a record's data words: random access with a bounds test
    (mii_packet_get_data) and streaming through the sentinel (mac_rx_send_frame1). */
module Stream {
  import opened Bytes
  import opened RingPool

  /** mii_packet_get_data(buf, n): buf is the record's address plus HEADER. */
  function GetData(r: Pool, buf: int, n: int): int
    requires r.WellFormed()
  {
    var p := buf + n + (DATA - HEADER);
    var p' := if p >= r.End() then p - (r.End() - START) else p;
    if 0 <= p' < |r.mem| then r.mem[p'] else 0
  }

  /** The words the server streams: at the wrap address it follows the sentinel word. */
  function StreamFrom(r: Pool, dptr: int, n: nat): (ws: seq<int>)
    ensures |ws| == n
    decreases n
  {
    if n == 0 then []
    else
      var d := if dptr == r.End() && 0 <= dptr < |r.mem| then r.mem[dptr] else dptr;
      [if 0 <= d < |r.mem| then r.mem[d] else 0] + StreamFrom(r, d + 1, n - 1)
  }

  /** Where the streaming pointer is after n words: it rests on the sentinel until it is used. */
  function Cursor(r: Pool, dptr: int, n: nat): int
    decreases n
  {
    if n == 0 then dptr
    else Cursor(r, (if dptr == r.End() && 0 <= dptr < |r.mem| then r.mem[dptr] else dptr) + 1, n - 1)
  }

  lemma {:induction false} StreamAppend(r: Pool, dptr: int, n: nat)
    requires r.WellFormed() && START <= dptr <= r.End()
    ensures START <= Cursor(r, dptr, n) <= r.End()
    ensures Cursor(r, dptr, n + 1) == (if Cursor(r, dptr, n) == r.End() then START else Cursor(r, dptr, n)) + 1
    ensures StreamFrom(r, dptr, n + 1) == StreamFrom(r, dptr, n) + StreamFrom(r, Cursor(r, dptr, n), 1)
    decreases n
  {
    if n > 0 {
      var d := if dptr == r.End() then START else dptr;
      StreamAppend(r, d + 1, n - 1);
      assert Cursor(r, d + 1, n - 1) == Cursor(r, dptr, n);
    }
  }

  lemma StreamOne(r: Pool, dptr: int)
    requires r.WellFormed() && START <= dptr <= r.End()
    ensures StreamFrom(r, dptr, 1) == [r.mem[if dptr == r.End() then START else dptr]]
  {}

  /** While the record fits the ring, the pointer has wrapped at most once. */
  lemma {:induction false} CursorPlace(r: Pool, a: int, n: nat)
    requires r.WellFormed() && r.Usable(a) && DATA + n <= r.Size()
    ensures Cursor(r, a + DATA, n) == if a + DATA + n > r.End() then a + DATA + n - r.Size() else a + DATA + n
  {
    if n > 0 {
      CursorPlace(r, a, n - 1);
      StreamAppend(r, a + DATA, n - 1);
    }
  }

  /** Streaming n words gives the words random access gives, at every ring position and for
      every length that fits the ring. */
  lemma {:induction false} StreamIsRandomAccess(r: Pool, a: int, n: nat, k: nat)
    requires r.WellFormed() && r.Usable(a) && DATA + n <= r.Size() && k < n
    ensures StreamFrom(r, a + DATA, n)[k] == GetData(r, a + HEADER, k) == r.mem[r.Word(a, DATA + k)]
    decreases n
  {
    StreamAppend(r, a + DATA, n - 1);
    if k < n - 1 {
      StreamIsRandomAccess(r, a, n - 1, k);
    } else {
      CursorPlace(r, a, k);
      StreamOne(r, Cursor(r, a + DATA, k));
    }
  }

  /** The words mac_rx_send_frame1 sends for the record at a. */
  function FrameWords(r: Pool, a: int): seq<int>
    requires r.WellFormed() && r.Usable(a)
  {
    var length := r.mem[a + LENGTH];
    StreamFrom(r, a + DATA, if length < 0 then 0 else (length + 3) / 4)
  }

  /** words carries the frame of `length` bytes stored in `data`: as many of its words as hold
      that many bytes. */
  predicate CarriesFrame(words: seq<int>, data: seq<int>, length: int) {
    0 <= length <= 4 * |data| && words == data[..(length + 3) / 4]
  }

  /** Streaming a committed record yields the words it was committed with, the last, partial one
      included. */
  lemma FrameWordsAreCommitted(r: Pool, q: seq<Packet>, i: nat)
    requires Chain(r, q) && i < |q|
    ensures 0 <= q[i].length && (q[i].length + 3) / 4 <= |q[i].data|
    ensures r.WellFormed() && r.Usable(q[i].addr)
    ensures FrameWords(r, q[i].addr) == q[i].data[..(q[i].length + 3) / 4]
    ensures CarriesFrame(FrameWords(r, q[i].addr), q[i].data, q[i].length)
  {
    var p := q[i];
    assert RecordAt(r, q, i);
    var n := (p.length + 3) / 4;
    forall k | 0 <= k < n
      ensures FrameWords(r, p.addr)[k] == p.data[k]
    {
      StreamIsRandomAccess(r, p.addr, n, k);
      assert r.mem[r.Word(p.addr, DATA + k)] == p.data[k];
    }
    assert FrameWords(r, p.addr) == p.data[..n];
  }
}
