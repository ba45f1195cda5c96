/** link_layer_status_t of ethernet_rx_server.xc: one client's circular queue of buffers,
    its notification flag and its limits. */
module Links {
  import opened Bytes

  type SlotCount = n: nat | n >= 1 witness 5

  const SLOTS: SlotCount                 // NUM_MII_RX_BUF, 5 unless the application says otherwise

  datatype Link = Link(dropped: int, notified: bool, maxQueue: int, rd: nat, wr: nat,
                       fifo: seq<int>, wants: int)
  {
    predicate Valid() { |fifo| == SLOTS && rd < SLOTS && wr < SLOTS }

    /** The queued buffers, oldest first. */
    function Queue(): seq<int>
      requires Valid()
    {
      seq(QueueSize(), k requires 0 <= k < QueueSize() => fifo[Slot(k)])
    }

    function Slot(k: nat): nat { if rd + k < SLOTS then rd + k else rd + k - SLOTS }

    predicate IsEmpty() { rd == wr }

    /** Lines 302-304. */
    function QueueSize(): int {
      if wr - rd < 0 then wr - rd + SLOTS else wr - rd
    }

    /** Line 306: is there space for one more buffer? */
    predicate Accepts() { QueueSize() < maxQueue && Next(wr) != rd }

    /** Lines 308-314, and the wake-up it may need. */
    function Push(buf: int): Link
      requires Valid()
    {
      this.(fifo := fifo[wr := buf], wr := Next(wr), notified := true)
    }

    /** Line 316. */
    function Drop(): Link { this.(dropped := (dropped + 1) % TWO32) }

    /** Lines 431-433 and 442. */
    function Pop(): Link { this.(rd := Next(rd)) }
  }

  function InitLink(fifo: seq<int>): Link {
    Link(0, false, SLOTS, 0, 0, fifo, 0)
  }

  /** Lines 299-300: index + 1, multiplied by whether it is not NUM_MII_RX_BUF. */
  function Next(i: nat): nat { if i + 1 != SLOTS then i + 1 else 0 }

  /** The circular queue never holds more than SLOTS - 1 buffers, and has room exactly when
      it is below both that bound and the client's own limit. */
  lemma QueueBound(l: Link)
    requires l.Valid()
    ensures |l.Queue()| <= SLOTS - 1
    ensures l.IsEmpty() <==> l.Queue() == []
    ensures l.Accepts() <==> |l.Queue()| < l.maxQueue && |l.Queue()| < SLOTS - 1
  {
    assert |l.Queue()| == l.QueueSize();
  }

  /** Accepting a buffer appends it, without disturbing the ones already queued. */
  lemma PushAppends(l: Link, buf: int)
    requires l.Valid() && l.Accepts()
    ensures l.Push(buf).Valid() && l.Push(buf).Queue() == l.Queue() + [buf]
  {
    var m := l.Push(buf);
    assert m.QueueSize() == l.QueueSize() + 1;
    forall k | 0 <= k < m.QueueSize()
      ensures m.Queue()[k] == (l.Queue() + [buf])[k]
    {
      assert m.Slot(k) == l.Slot(k);
      assert k < l.QueueSize() ==> l.Slot(k) != l.wr;
    }
  }

  /** Serving a request removes the oldest buffer. */
  lemma PopRemovesOldest(l: Link)
    requires l.Valid() && !l.IsEmpty()
    ensures l.Pop().Valid() && l.Queue() == [l.fifo[l.rd]] + l.Pop().Queue()
  {
    var m := l.Pop();
    assert m.QueueSize() == l.QueueSize() - 1;
    forall k | 0 <= k < l.QueueSize()
      ensures l.Queue()[k] == ([l.fifo[l.rd]] + m.Queue())[k]
    {
      assert k > 0 ==> l.Slot(k) == m.Slot(k - 1);
    }
  }
}
