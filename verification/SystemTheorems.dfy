/** What the receive path guarantees in every run. */
module SystemTheorems {
  import opened RingPool
  import opened Bytes
  import opened Links
  import opened Protocol
  import opened Reception
  import opened RxSystem
  import opened SystemProofs
  import P = PoolSteps
  import Stream
  import Transport

  /** trace is a run: each state follows from the previous one by an enabled event, and no
      link-status token is sent to an un-notified subscriber. */
  ghost predicate IsRun(trace: seq<System>, events: seq<Event>) {
    && |trace| == |events| + 1
    && IsInit(trace[0])
    && forall i :: 0 <= i < |events| ==>
         && Enabled(trace[i], events[i])
         && (events[i].LinkChange? ==> Quiet(trace[i]))
         && trace[i + 1] == Step(trace[i], events[i])
  }

  /** The invariant holds throughout every run. */
  lemma {:induction false} RunInv(trace: seq<System>, events: seq<Event>, i: nat)
    requires IsRun(trace, events) && i < |trace|
    ensures Inv(trace[i])
  {
    if i == 0 {
      InitInv(trace[0]);
    } else {
      RunInv(trace, events, i - 1);
      StepInv(trace[i - 1], events[i - 1]);
    }
  }

  /** End-to-end: in every reachable state, what client j has received is, frame by frame and
      in order of acceptance, byte for byte what the producer committed for the frames accepted
      for it; no frame is received twice, and matched = delivered + queued + dropped. */
  lemma DeliveredAsCommitted(trace: seq<System>, events: seq<Event>, i: nat, j: nat)
    requires IsRun(trace, events) && i < |trace| && j < |trace[i].clients|
    ensures var s := trace[i]; var c := s.clients[j];
            && |c.log.got| <= |c.log.accepted|
            && (forall k :: 0 <= k < |c.log.got| ==>
                  && c.log.accepted[k] < |s.frames|
                  && 0 <= s.frames[c.log.accepted[k]].length <= 4 * |s.frames[c.log.accepted[k]].data|
                  && c.log.got[k] == s.frames[c.log.accepted[k]].data[..(s.frames[c.log.accepted[k]].length + 3) / 4]
                  && s.frames[c.log.accepted[k]].length <= 4 * |c.log.got[k]|
                  && forall b: nat :: b < s.frames[c.log.accepted[k]].length ==>
                       FrameByte(c.log.got[k], b) == FrameByte(s.frames[c.log.accepted[k]].data, b))
            && (forall k, l :: 0 <= k < l < |c.log.accepted| ==> c.log.accepted[k] < c.log.accepted[l])
            && c.link.Valid()
            && c.log.matched == |c.log.got| + |Live(c, PhaseOf(s, j))| + c.log.dropped
            && c.link.dropped == c.log.dropped % TWO32
  {
    RunInv(trace, events, i);
    var s := trace[i];
    assert ClientLedger(s, s.clients[j], PhaseOf(s, j)) && Delivery(s, s.clients[j]);
  }

  lemma {:induction false} HeardInRun(trace: seq<System>, events: seq<Event>, i: nat)
    requires IsRun(trace, events) && i < |trace|
    ensures LineInv(trace[i].ring.prod, LineHeard(events[..i])) && trace[i].frames == FramesHeard(events[..i])
  {
    hide Inv, Step, Enabled, LineInv;
    if i == 0 {
      NothingHeard(trace[0]);
    } else {
      HeardInRun(trace, events, i - 1);
      assert Enabled(trace[i - 1], events[i - 1]) && trace[i] == Step(trace[i - 1], events[i - 1]);
      EventLine(trace[i - 1], events[i - 1], LineHeard(events[..i - 1]));
      assert events[..i][..i - 1] == events[..i - 1];
    }
  }

  lemma NothingHeard(s: System)
    requires IsInit(s)
    ensures LineInv(s.ring.prod, LineHeard([])) && s.frames == FramesHeard([])
  {}

  /** In every run the frames committed are those the line brought, in order: a commit adds the
      words received of the current frame, with the number of bytes received, the four of the CRC
      left out, as its length; nothing else changes the list. */
  lemma FramesAreReceived(trace: seq<System>, events: seq<Event>, i: nat)
    requires IsRun(trace, events) && i < |events|
    ensures var l := LineHeard(events[..i]);
            if events[i] == Memory(P.StoreWrptr) then
              && 6 <= |l.words| && l.tail < 4
              && trace[i + 1].frames == trace[i].frames + [FrameRecord(l.words, 4 * |l.words| + l.tail - 4)]
            else trace[i + 1].frames == trace[i].frames
  {
    hide *;
    EventEnabled(trace, events, i);
    HeardInRun(trace, events, i);
    EventLine(trace[i], events[i], LineHeard(events[..i]));
  }

  /** The frame started at event b, ended with t bytes at event e and committed at event i: its
      record has the words stored from b on, and the length 4 a word plus t, less the CRC. */
  lemma CommittedIsHeard(trace: seq<System>, events: seq<Event>, b: nat, e: nat, i: nat, ws: seq<int>, t: int)
    requires IsRun(trace, events) && b < e < i < |events|
    requires events[b] == Memory(P.StartFrame(ws)) && events[e] == Memory(P.EndFrame(t)) && events[i] == Memory(P.StoreWrptr)
    requires forall l :: b < l < i ==> !Starts(events[l])
    requires forall l :: e < l < i ==> !Ends(events[l])
    ensures var data := ws + WordsOf(events[b + 1..i]);
            trace[i + 1].frames == trace[i].frames + [FrameRecord(data, 4 * |data| + t - 4)]
  {
    hide *;
    EventEnabled(trace, events, e);
    EndHasTail(trace[e], t);
    FramesAreReceived(trace, events, i);
    WordsSince(events, b, i, ws);
    TailSince(events, e, i, t);
  }

  lemma EndHasTail(s: System, t: int)
    requires Enabled(s, Memory(P.EndFrame(t)))
    ensures 0 <= t < 4
  {}

  /** The words the system model sends are those mac_rx_send_frame1 streams for a full frame. */
  lemma SendIsSent(r: Pool, a: int)
    requires r.WellFormed() && r.Usable(a) && r.mem[a + LENGTH] >= 0
    ensures Send(r, a) == Transport.Sent(r, a + HEADER, Transport.FullFrame)
  {}

  /** buf holds committed frame base + m: live, intact, never passed to mii_free, and held by
      exactly tcount + 1 clients. */
  ghost predicate LiveBuffer(s: System, m: nat, buf: int) {
    && m < |s.ring.fifo| && s.base + m < |s.frames|
    && buf == s.ring.fifo[m].addr + HEADER
    && !s.ring.fifo[m].freed && s.base + m !in s.freeCalls
    && Stream.CarriesFrame(Send(s.ring.pool, s.ring.fifo[m].addr), s.frames[s.base + m].data, s.frames[s.base + m].length)
    && Holders(s.clients, s.base + m) == Count(s, m) + 1
  }

  /** Slot k of client j's queue holds a live buffer, namely that of its k-th pending frame. */
  ghost predicate SlotIsLive(s: System, j: nat, k: nat)
    requires j < |s.clients| && s.clients[j].link.Valid()
  {
    var c, live := s.clients[j], Live(s.clients[j], PhaseOf(s, j));
    && |live| == |Pending(c)|
    && (k < |live| ==> s.base <= Pending(c)[k] && LiveBuffer(s, Pending(c)[k] - s.base, live[k]))
  }

  lemma PendingAt(s: System, c: Client, ph: Phase, k: nat)
    requires s.taken <= |s.ring.fifo| && ClientLedger(s, c, ph)
    ensures c.link.Valid() && |Live(c, ph)| == |Pending(c)|
    ensures k < |Pending(c)| ==> At(s, Pending(c)[k], Live(c, ph)[k]) && Holding(c, Pending(c)[k])
  {}

  lemma NotFreed(s: System, m: nat)
    requires s.taken <= |s.ring.fifo| && FreeOnce(s) && m < s.taken && !Released(s, m)
    ensures s.base + m !in s.freeCalls && !s.ring.fifo[m].freed
  {}

  lemma HeldBufferIsLive(s: System, j: nat, k: nat)
    requires Inv(s) && j < |s.clients|
    ensures s.clients[j].link.Valid() && SlotIsLive(s, j, k)
  {
    hide P.Inv, Delivery, Tokens, Holders, Send, FreeOnce, ClientLedger, Live, Released, Holding, Pending;
    var c, ph := s.clients[j], PhaseOf(s, j);
    PendingAt(s, c, ph, k);
    if k < |Pending(c)| {
      HeldIsLive(s, j, Pending(c)[k]);
      var m: nat := Pending(c)[k] - s.base;
      SentIsCommitted(s.ring, m);
      NotFreed(s, m);
      assert Balanced(s, m);
      FrameAt(s, m);
    }
  }

  /** No use after free: in every reachable state, every buffer queued for a client is a
      live, intact record, and tcount + 1 clients hold it. */
  lemma QueuedBuffersAreLive(trace: seq<System>, events: seq<Event>, i: nat, j: nat, k: nat)
    requires IsRun(trace, events) && i < |trace| && j < |trace[i].clients|
    ensures trace[i].clients[j].link.Valid() && SlotIsLive(trace[i], j, k)
  {
    RunInv(trace, events, i);
    hide *;
    HeldBufferIsLive(trace[i], j, k);
  }

  lemma UnheldIffFreed(s: System, n: nat)
    requires Inv(s) && n < s.base + s.taken
    ensures n in s.freeCalls <==> Holders(s.clients, n) == 0
  {
    hide P.Inv, Tokens, ClientLedger, Delivery, Holders, Released;
    if n < s.base {
      forall j | 0 <= j < |s.clients|
        ensures !Holding(s.clients[j], n)
      {
        if Holding(s.clients[j], n) { HeldIsLive(s, j, n); }
      }
      NoHolders(s.clients, n);
    } else {
      assert Balanced(s, n - s.base);
    }
  }

  /** Every frame the server has taken has been passed to mii_free exactly when no client
      queue holds it any more, and never twice. */
  lemma FreedOnceByLastHolder(trace: seq<System>, events: seq<Event>, i: nat)
    requires IsRun(trace, events) && i < |trace|
    ensures var s := trace[i];
            && (forall n: nat :: n < s.base + s.taken ==> (n in s.freeCalls <==> Holders(s.clients, n) == 0))
            && (forall k, l :: 0 <= k < l < |s.freeCalls| ==> s.freeCalls[k] != s.freeCalls[l])
            && (forall n: nat :: n in s.freeCalls ==> n < s.base + s.taken)
  {
    RunInv(trace, events, i);
    var s := trace[i];
    forall n: nat | n < s.base + s.taken
      ensures n in s.freeCalls <==> Holders(s.clients, n) == 0
    {
      UnheldIffFreed(s, n);
    }
  }

  function TakeCountOf(events: seq<Event>): nat {
    if events == [] then 0
    else TakeCountOf(events[..|events| - 1]) + (if events[|events| - 1].TakeFrame? then 1 else 0)
  }

  lemma MemoryTotal(s: System, a: P.Action)
    requires Inv(s) && Enabled(s, Memory(a))
    ensures MemoryStep(s, a).base + MemoryStep(s, a).taken == s.base + s.taken
  {
    if a.FreeHead? && s.ring.freer.h == s.ring.pool.rdptr {
      DropMemory(s);
    }
    hide P.Step, P.Inv, Tokens, Ledger;
  }

  lemma ServerTotal(s: System, e: Event)
    requires Enabled(s, e) && !e.Memory?
    ensures Step(s, e).base + Step(s, e).taken == s.base + s.taken + if e.TakeFrame? then 1 else 0
  {
    hide Accepting, OfferAll, BeginFree, PutWord, Send, P.Enabled, P.Load, AcceptOp, AcceptCmd, Finish, StatusChange;
  }

  lemma TakenTotal(s: System, e: Event)
    requires Inv(s) && Enabled(s, e) && (e.LinkChange? ==> Quiet(s))
    ensures Step(s, e).base + Step(s, e).taken == s.base + s.taken + if e.TakeFrame? then 1 else 0
  {
    hide Inv, MemoryStep, TakeStep, MeetStep;
    if e.Memory? { MemoryTotal(s, e.act); } else { ServerTotal(s, e); }
  }

  lemma {:induction false} TakesCounted(trace: seq<System>, events: seq<Event>, i: nat)
    requires IsRun(trace, events) && i < |trace|
    ensures trace[i].base + trace[i].taken == TakeCountOf(events[..i])
  {
    hide Inv, Step, Enabled;
    if i > 0 {
      TakesCounted(trace, events, i - 1);
      RunInv(trace, events, i - 1);
      assert Enabled(trace[i - 1], events[i - 1]) && trace[i] == Step(trace[i - 1], events[i - 1]);
      TakenTotal(trace[i - 1], events[i - 1]);
      assert events[..i][..i - 1] == events[..i - 1];
    }
  }

  /** In every reachable state the cursor lies on a record boundary between rdptr and wrptr;
      the frame it takes is committed frame number base + taken, it was staged since its own
      commit, it has not been freed, and the link read from it is positive. */
  lemma CursorOnBoundary(trace: seq<System>, events: seq<Event>, i: nat, result: bv32)
    requires IsRun(trace, events) && i < |trace|
    ensures var s := trace[i];
            && s.taken <= |s.ring.fifo| && s.cursor == Follow(s.ring.pool, s.taken)
            && (Enabled(s, TakeFrame(result)) ==>
                  && s.taken < |s.ring.fifo| && s.base + s.taken < |s.frames|
                  && s.frames[s.base + s.taken]
                     == FrameRecord(s.ring.fifo[s.taken].data, s.ring.fifo[s.taken].length)
                  && s.ring.fifo[s.taken].staged && !s.ring.fifo[s.taken].freed
                  && P.Load(s.ring.pool, s.cursor) > 0)
  {
    RunInv(trace, events, i);
    var s := trace[i];
    ChainReachesWrptr(s.ring.pool, s.ring.fifo, s.taken);
    if Enabled(s, TakeFrame(result)) {
      CursorReads(s, result);
      assert s.frames[s.base + s.taken] == FrameRecord(s.ring.fifo[s.taken].data, s.ring.fifo[s.taken].length);
    }
  }

  /** The server takes every committed frame once and in commit order: the take that follows k
      others is of frame k, in the words and the length it was committed with. */
  lemma TakesInCommitOrder(trace: seq<System>, events: seq<Event>, i: nat)
    requires IsRun(trace, events) && i < |events| && events[i].TakeFrame?
    ensures var s, k := trace[i], TakeCountOf(events[..i]);
            && s.base <= k < |s.frames| && k - s.base < |s.ring.fifo|
            && s.cursor == s.ring.fifo[k - s.base].addr
            && s.frames[k] == FrameRecord(s.ring.fifo[k - s.base].data, s.ring.fifo[k - s.base].length)
  {
    hide *;
    EventEnabled(trace, events, i);
    TakesCounted(trace, events, i);
    RunInv(trace, events, i);
    assert events[i] == TakeFrame(events[i].result);
    FrameTaken(trace[i], events[i].result);
  }

  lemma EventEnabled(trace: seq<System>, events: seq<Event>, i: nat)
    requires IsRun(trace, events) && i < |events|
    ensures |trace| == |events| + 1 && Enabled(trace[i], events[i]) && trace[i + 1] == Step(trace[i], events[i])
  {
    hide Enabled, Step;
  }

  lemma FrameTaken(s: System, result: bv32)
    requires Inv(s) && Enabled(s, TakeFrame(result))
    ensures s.taken < |s.ring.fifo| && s.base + s.taken < |s.frames| && s.cursor == s.ring.fifo[s.taken].addr
    ensures s.frames[s.base + s.taken] == FrameRecord(s.ring.fifo[s.taken].data, s.ring.fifo[s.taken].length)
  {
    hide P.Inv, Tokens, Enabled;
    CursorReads(s, result);
    FrameAt(s, s.taken);
  }

  /** In every run: a client between operations that the server is not serving has as many
      tokens on their way to it as `notified` says, which is set exactly when its queue holds
      a frame; and every data rendezvous starts with an empty channel, the two sides agreeing
      on the request, and a frame to send when a frame is asked for. */
  lemma TokensInEveryRun(trace: seq<System>, events: seq<Event>, i: nat, j: nat)
    requires IsRun(trace, events) && i < |trace| && j < |trace[i].clients|
    ensures var s := trace[i]; var c := s.clients[j]; var ph := PhaseOf(s, j);
            && (c.link.notified <==> !c.link.IsEmpty())
            && (c.port.pc.AtRest? && ph.Away? ==>
                  c.port.toServer == [] && c.port.tokens == if c.link.notified then 1 else 0)
            && (Enabled(s, Meet(j)) ==>
                  && c.port.tokens == 0 && c.port.toServer == []
                  && ph.req == c.port.pc.req
                  && (ph.req.Frame? ==> !c.link.IsEmpty()))
  {
    hide *;
    RunInv(trace, events, i);
    TokensMean(trace[i], j);
  }

  lemma TokensMean(s: System, j: nat)
    requires Inv(s) && j < |s.clients|
    ensures var c := s.clients[j]; var ph := PhaseOf(s, j);
            && (c.link.notified <==> !c.link.IsEmpty())
            && (c.port.pc.AtRest? && ph.Away? ==>
                  c.port.toServer == [] && c.port.tokens == if c.link.notified then 1 else 0)
            && (Enabled(s, Meet(j)) ==>
                  && c.port.tokens == 0 && c.port.toServer == []
                  && ph.req == c.port.pc.req
                  && (ph.req.Frame? ==> !c.link.IsEmpty()))
  {
    hide P.Inv, Ledger, Enabled;
    var c, ph := s.clients[j], PhaseOf(s, j);
    assert TokenInv(c, ph);
    if Enabled(s, Meet(j)) {
      MeetingSides(s, j);
      RendezvousIsClean(c, ph, []);
    }
  }

  lemma MeetingSides(s: System, j: nat)
    requires Enabled(s, Meet(j))
    ensures j < |s.clients| && PhaseOf(s, j).Meeting? && s.clients[j].port.pc.Exchanging?
  {}
}
