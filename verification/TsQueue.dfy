/** The timestamp ring of mii_queue.c, updated under the lock. */
module TsQueue {
  import Links

  const TX_BUFS: Links.SlotCount         // NUM_MII_TX_BUF

  const ENTRIES := (if Links.SLOTS < TX_BUFS then TX_BUFS else Links.SLOTS) + 1    // MAC_MAX_ENTRIES

  class TsQueue {
    var rdIndex: nat
    var wrIndex: nat
    const fifo: array<int>
    ghost var contents: seq<int>

    ghost predicate Valid()
      reads this, fifo
    {
      && fifo.Length == ENTRIES && rdIndex < ENTRIES && wrIndex < ENTRIES
      && |contents| == (if rdIndex <= wrIndex then wrIndex - rdIndex else wrIndex + ENTRIES - rdIndex)
      && forall k :: 0 <= k < |contents| ==>
           contents[k] == fifo[if rdIndex + k < ENTRIES then rdIndex + k else rdIndex + k - ENTRIES]
    }

    /** init_ts_queue. */
    constructor ()
      ensures Valid() && contents == [] && fresh(fifo)
    {
      rdIndex, wrIndex := 0, 0;
      fifo := new int[ENTRIES];
      contents := [];
    }

    /** add_ts_queue_entry: there is no test for a full ring.  The entry is appended exactly
        when fewer than ENTRIES - 1 are queued; otherwise the ring looks empty and every
        entry is lost. */
    method Add(i: int)
      requires Valid()
      modifies this, fifo
      ensures Valid()
      ensures contents == if |old(contents)| < ENTRIES - 1 then old(contents) + [i] else []
    {
      fifo[wrIndex] := i;
      wrIndex := wrIndex + 1;
      if wrIndex == ENTRIES {
        wrIndex := 0;
      }
      contents := if |contents| < ENTRIES - 1 then contents + [i] else [];
    }

    /** get_ts_queue_entry: the oldest entry, 0 when there is none. */
    method Get() returns (i: int)
      requires Valid()
      modifies this
      ensures Valid()
      ensures old(contents) == [] ==> i == 0 && contents == []
      ensures old(contents) != [] ==> old(contents) == [i] + contents
    {
      if rdIndex == wrIndex {
        return 0;
      }
      i := fifo[rdIndex];
      rdIndex := rdIndex + 1;
      if rdIndex == ENTRIES {
        rdIndex := 0;
      }
      contents := contents[1..];
    }
  }

  /** As many timed senders outstanding as the ring has entries, and every entry is lost. */
  method LoseAll(entries: seq<int>) returns (q: TsQueue)
    requires |entries| == ENTRIES
    ensures q.Valid() && q.contents == []
  {
    q := new TsQueue();
    var n := 0;
    while n < ENTRIES
      invariant 0 <= n <= ENTRIES && q.Valid() && fresh(q) && fresh(q.fifo)
      invariant q.contents == if n < ENTRIES then entries[..n] else []
    {
      q.Add(entries[n]);
      n := n + 1;
    }
  }
}
