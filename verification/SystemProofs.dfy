/** The system invariant: preserved by every step, and what it means. */
module SystemProofs {
  import opened RingPool
  import opened Bytes
  import opened Links
  import opened Protocol
  import opened RxSystem
  import P = PoolSteps
  import Stream

  // ---------- counting holders ----------

  lemma {:induction false} NoHolders(cs: seq<Client>, n: nat)
    requires forall j :: 0 <= j < |cs| ==> !Holding(cs[j], n)
    ensures Holders(cs, n) == 0
  {
    if cs != [] {
      NoHolders(cs[..|cs| - 1], n);
    }
  }

  lemma {:induction false} SomeHolder(cs: seq<Client>, j: nat, n: nat)
    requires j < |cs| && Holding(cs[j], n)
    ensures Holders(cs, n) > 0
  {
    if j < |cs| - 1 {
      SomeHolder(cs[..|cs| - 1], j, n);
    }
  }

  /** Replacing client j changes the count by what client j itself holds. */
  lemma {:induction false} HoldersUpdate(cs: seq<Client>, j: nat, c: Client, n: nat)
    requires j < |cs|
    ensures Holders(cs[j := c], n) + (if Holding(cs[j], n) then 1 else 0)
            == Holders(cs, n) + (if Holding(c, n) then 1 else 0)
  {
    var m := |cs| - 1;
    if j == m {
      assert cs[j := c][..m] == cs[..m];
    } else {
      assert cs[j := c][..m] == cs[..m][j := c];
      HoldersUpdate(cs[..m], j, c, n);
    }
  }

  lemma PendingAfterOffer(c: Client, result: bv32, buf: int, n: nat)
    requires c.link.Valid() && c.log.done <= |c.log.accepted|
    ensures Pending(Offer(c, result, buf, n)) == if Takes(c, result) then Pending(c) + [n] else Pending(c)
  {}

  /** Offering fresh frame n: tcount counts exactly its new holders, and no other count moves. */
  lemma {:induction false} HoldersAfterOffer(cs: seq<Client>, result: bv32, buf: int, n: nat, k: nat)
    requires forall j :: 0 <= j < |cs| ==> cs[j].link.Valid() && cs[j].log.done <= |cs[j].log.accepted|
    requires forall j :: 0 <= j < |cs| ==> !Holding(cs[j], n)
    ensures Holders(OfferAll(cs, result, buf, n), k) == if k == n then Accepting(cs, result) else Holders(cs, k)
  {
    if cs != [] {
      var m := |cs| - 1;
      HoldersAfterOffer(cs[..m], result, buf, n, k);
      assert OfferAll(cs, result, buf, n)[..m] == OfferAll(cs[..m], result, buf, n);
      PendingAfterOffer(cs[m], result, buf, n);
    }
  }

  /** A frame held by a client is taken, unreclaimed, and not passed to mii_free. */
  lemma HeldIsLive(s: System, j: nat, n: nat)
    requires Ledger(s) && j < |s.clients| && Holding(s.clients[j], n)
    ensures s.base <= n < s.base + s.taken && !Released(s, n - s.base)
  {
    hide ClientLedger, FreeOnce, Delivery, Released, Holders, Holding, Live;
    PendingIsTaken(s, s.clients[j], PhaseOf(s, j), n);
    SomeHolder(s.clients, j, n);
    assert Balanced(s, n - s.base);
  }

  lemma PendingIsTaken(s: System, c: Client, ph: Phase, n: nat)
    requires s.taken <= |s.ring.fifo| && ClientLedger(s, c, ph) && Holding(c, n)
    ensures s.base <= n < s.base + s.taken
  {
    var k :| 0 <= k < |Pending(c)| && Pending(c)[k] == n;
    assert At(s, n, Live(c, ph)[k]);
  }

  // ---------- the ledger under memory steps ----------

  /** s' differs from s in memory only, and every frame the server has taken is either where
      it was, with its count and its release mark, or was released and is now reclaimed. */
  ghost predicate Carries(s: System, s': System) {
    && s.taken <= |s.ring.fifo| && s'.taken <= |s'.ring.fifo|
    && s.base <= s'.base <= s'.base + s'.taken == s.base + s.taken
    && s'.clients == s.clients && s'.who == s.who && s'.phase == s.phase && s'.freeCalls == s.freeCalls
    && s.frames <= s'.frames
    && (forall i: nat :: i < s'.base - s.base ==> Released(s, i))
    && (forall n: nat :: s'.base <= n < s'.base + s'.taken ==> SameFrame(s, s', n))
  }

  predicate SameFrame(s: System, s': System, n: nat)
    requires s.base <= n && n - s.base < |s.ring.fifo| && s'.base <= n && n - s'.base < |s'.ring.fifo|
  {
    var a := s.ring.fifo[n - s.base].addr;
    && s'.ring.fifo[n - s'.base].addr == a
    && Released(s', n - s'.base) == Released(s, n - s.base)
    && P.Load(s'.ring.pool, a + TCOUNT) == P.Load(s.ring.pool, a + TCOUNT)
  }

  lemma CarriesClient(s: System, s': System, j: nat)
    requires Ledger(s) && Carries(s, s') && j < |s.clients|
    ensures ClientLedger(s', s.clients[j], PhaseOf(s, j)) && Delivery(s', s.clients[j])
  {
    var c, ph := s.clients[j], PhaseOf(s, j);
    assert ClientLedger(s, c, ph) && Delivery(s, c);
    forall k | 0 <= k < |Pending(c)|
      ensures At(s', Pending(c)[k], Live(c, ph)[k])
    {
      assert At(s, Pending(c)[k], Live(c, ph)[k]);
      assert Holding(c, Pending(c)[k]);
      HeldIsLive(s, j, Pending(c)[k]);
      assert SameFrame(s, s', Pending(c)[k]);
    }
  }

  lemma CarriesFreeOnce(s: System, s': System)
    requires s.taken <= |s.ring.fifo| && FreeOnce(s) && Carries(s, s')
    ensures FreeOnce(s')
  {
    forall n: nat
      ensures n in s'.freeCalls <==> n < s'.base || (n < s'.base + s'.taken && Released(s', n - s'.base))
    {
      if s'.base <= n < s'.base + s'.taken { assert SameFrame(s, s', n); }
    }
  }

  lemma CarriesBalance(s: System, s': System, i: nat)
    requires Ledger(s) && Carries(s, s') && i < s'.taken
    ensures Balanced(s', i)
  {
    hide ClientLedger, Delivery, CursorInv, FreeOnce, Holders, Released;
    assert SameFrame(s, s', s'.base + i);
    assert Balanced(s, s'.base + i - s.base);
  }

  lemma CarriesLedger(s: System, s': System)
    requires Ledger(s) && Carries(s, s') && CursorInv(s')
    ensures Ledger(s')
  {
    hide ClientLedger, Delivery, Balanced, CursorInv, FreeOnce;
    CarriesFreeOnce(s, s');
    forall i | 0 <= i < s'.taken
      ensures Balanced(s', i)
    {
      CarriesBalance(s, s', i);
    }
    forall j | 0 <= j < |s'.clients|
      ensures ClientLedger(s', s'.clients[j], PhaseOf(s', j)) && Delivery(s', s'.clients[j])
    {
      CarriesClient(s, s', j);
    }
  }

  predicate KeepsQueue(a: P.Action) { !a.CallFree? && !a.StoreWrptr? && !a.FreeHead? && !a.SetStage? }

  lemma TcountKept(s: System, a: P.Action, i: nat)
    requires P.Inv(s.ring) && Enabled(s, Memory(a)) && i < |s.ring.fifo|
    ensures P.Load(MemoryStep(s, a).ring.pool, s.ring.fifo[i].addr + TCOUNT)
            == P.Load(s.ring.pool, s.ring.fifo[i].addr + TCOUNT)
  {
    P.HeaderWordKept(s.ring, a, i, TCOUNT);
  }

  lemma QuietMemory(s: System, a: P.Action)
    requires Inv(s) && Enabled(s, Memory(a)) && KeepsQueue(a)
    ensures Carries(s, MemoryStep(s, a)) && CursorInv(MemoryStep(s, a))
  {
    hide Chain, P.ProducerInv, P.FreerInv, ClientLedger, Delivery, Balanced, FreeOnce, TokenInv;
    var s' := MemoryStep(s, a);
    assert s'.ring.fifo == s.ring.fifo && s'.ring.pool.wrptr == s.ring.pool.wrptr;
    assert forall i: nat :: i < |s.ring.fifo| ==> Released(s', i) == Released(s, i);
    forall n: nat | s'.base <= n < s'.base + s'.taken
      ensures SameFrame(s, s', n)
    {
      TcountKept(s, a, n - s.base);
    }
  }

  lemma StageMemory(s: System, i: nat)
    requires Inv(s) && Enabled(s, Memory(P.SetStage(i)))
    ensures Carries(s, MemoryStep(s, P.SetStage(i))) && CursorInv(MemoryStep(s, P.SetStage(i)))
  {
    hide Chain, P.ProducerInv, P.FreerInv, ClientLedger, Delivery, Balanced, FreeOnce, TokenInv;
    var s' := MemoryStep(s, P.SetStage(i));
    assert i >= s.taken;
    assert forall k: nat :: k < |s.ring.fifo| ==> Released(s', k) == Released(s, k);
    forall n: nat | s'.base <= n < s'.base + s'.taken
      ensures SameFrame(s, s', n)
    {
      TcountKept(s, P.SetStage(i), n - s.base);
    }
  }

  /** The record being freed is never the one being committed. */
  lemma AppendedIsLive(r: P.State)
    requires P.Inv(r)
    ensures r.freer != P.AtHead(r.pool.wrptr, true)
  {}

  lemma AppendReleased(s: System)
    requires Inv(s) && Enabled(s, Memory(P.StoreWrptr))
    ensures forall k :: s.taken <= k < |MemoryStep(s, P.StoreWrptr).ring.fifo| ==> !Released(MemoryStep(s, P.StoreWrptr), k)
  {
    AppendedIsLive(s.ring);
    hide Chain, P.ProducerInv, P.FreerInv, ClientLedger, Delivery, Balanced, FreeOnce, TokenInv;
    var q, s' := s.ring.fifo, MemoryStep(s, P.StoreWrptr);
    forall k | s.taken <= k < |s'.ring.fifo|
      ensures !Released(s', k)
    {
      if k < |q| { assert !Released(s, k); }
    }
  }

  lemma AppendCursor(s: System)
    requires Inv(s) && Enabled(s, Memory(P.StoreWrptr))
    ensures CursorInv(MemoryStep(s, P.StoreWrptr))
  {
    AppendReleased(s);
    AppendShape(s);
    hide P.Inv, Enabled, MemoryStep, ClientLedger, Delivery, Balanced, FreeOnce, TokenInv, Released;
    var q, s' := s.ring.fifo, MemoryStep(s, P.StoreWrptr);
    assert forall i :: 0 <= i < |q| ==> s'.ring.fifo[i] == q[i];
  }

  /** What a commit changes of the cursor and the history. */
  lemma AppendShape(s: System)
    requires Enabled(s, Memory(P.StoreWrptr))
    ensures var s', p := MemoryStep(s, P.StoreWrptr),
                        Packet(s.ring.pool.wrptr, s.ring.prod.frame, s.ring.prod.length, false, false);
            && s'.ring.fifo == s.ring.fifo + [p] && s'.frames == s.frames + [FrameRecord(p.data, p.length)]
            && s'.taken == s.taken && s'.base == s.base && s'.cursor == s.cursor
            && s'.ring.pool == s.ring.pool.(wrptr := s'.ring.pool.wrptr)
  {}

  lemma AppendReleases(s: System)
    requires Enabled(s, Memory(P.StoreWrptr))
    ensures var s' := MemoryStep(s, P.StoreWrptr);
            && s'.clients == s.clients && s'.who == s.who && s'.phase == s.phase && s'.freeCalls == s.freeCalls
            && |s.ring.fifo| <= |s'.ring.fifo|
            && forall k: nat :: k < |s.ring.fifo| ==> Released(s', k) == Released(s, k)
  {}

  lemma AppendMemory(s: System)
    requires Inv(s) && Enabled(s, Memory(P.StoreWrptr))
    ensures Carries(s, MemoryStep(s, P.StoreWrptr)) && CursorInv(MemoryStep(s, P.StoreWrptr))
  {
    AppendCursor(s);
    AppendShape(s);
    AppendReleases(s);
    TakenBound(s);
    hide Inv, CursorInv, Enabled, MemoryStep, P.Load, Released;
    var s' := MemoryStep(s, P.StoreWrptr);
    forall n: nat | s'.base <= n < s'.base + s'.taken
      ensures SameFrame(s, s', n)
    {
      TcountAppend(s, n - s.base);
    }
  }

  lemma TakenBound(s: System)
    requires Inv(s)
    ensures s.taken <= |s.ring.fifo|
  {
    hide P.Inv, Tokens;
  }

  lemma TcountAppend(s: System, i: nat)
    requires Inv(s) && Enabled(s, Memory(P.StoreWrptr)) && i < |s.ring.fifo|
    ensures P.Load(MemoryStep(s, P.StoreWrptr).ring.pool, s.ring.fifo[i].addr + TCOUNT)
            == P.Load(s.ring.pool, s.ring.fifo[i].addr + TCOUNT)
  {
    hide P.Inv, Ledger, Tokens;
    TcountKept(s, P.StoreWrptr, i);
  }

  lemma DropMemory(s: System)
    requires Inv(s) && Enabled(s, Memory(P.FreeHead)) && s.ring.freer.h == s.ring.pool.rdptr
    ensures Carries(s, MemoryStep(s, P.FreeHead)) && CursorInv(MemoryStep(s, P.FreeHead))
  {
    hide Chain, P.ProducerInv, P.FreerInv, ClientLedger, Delivery, Balanced, FreeOnce, TokenInv;
    P.FreeHeadView(s.ring);
    var q, s' := s.ring.fifo, MemoryStep(s, P.FreeHead);
    assert Released(s, 0);
    assert s.taken > 0;
    assert forall k: nat :: 0 < k < |q| ==> Released(s', k - 1) == Released(s, k);
    forall n: nat | s'.base <= n < s'.base + s'.taken
      ensures SameFrame(s, s', n)
    {
      TcountKept(s, P.FreeHead, n - s.base);
      assert Released(s', n - s.base - 1) == Released(s, n - s.base);
    }
    forall i | s'.taken <= i < |s'.ring.fifo|
      ensures !Released(s', i)
    {
      assert !Released(s, i + 1);
    }
  }

  lemma MarkMemory(s: System)
    requires Inv(s) && Enabled(s, Memory(P.FreeHead)) && s.ring.freer.h != s.ring.pool.rdptr
    ensures Carries(s, MemoryStep(s, P.FreeHead)) && CursorInv(MemoryStep(s, P.FreeHead))
  {
    hide Chain, P.ProducerInv, P.FreerInv, ClientLedger, Delivery, Balanced, FreeOnce, TokenInv;
    P.FreeHeadView(s.ring);
    var q, s' := s.ring.fifo, MemoryStep(s, P.FreeHead);
    assert forall k: nat :: k < |q| ==> Released(s', k) == Released(s, k);
    forall n: nat | s'.base <= n < s'.base + s'.taken
      ensures SameFrame(s, s', n)
    {
      TcountKept(s, P.FreeHead, n - s.base);
    }
  }

  lemma HeadMemory(s: System)
    requires Inv(s) && Enabled(s, Memory(P.FreeHead))
    ensures Carries(s, MemoryStep(s, P.FreeHead)) && CursorInv(MemoryStep(s, P.FreeHead))
  {
    hide Inv, Carries, CursorInv, MemoryStep;
    if s.ring.freer.h == s.ring.pool.rdptr { DropMemory(s); } else { MarkMemory(s); }
  }

  lemma MemoryCarries(s: System, a: P.Action)
    requires Inv(s) && Enabled(s, Memory(a))
    ensures Carries(s, MemoryStep(s, a)) && CursorInv(MemoryStep(s, a))
  {
    hide Inv, Enabled, Carries, CursorInv, MemoryStep;
    match a
    case SetStage(i) => StageMemory(s, i);
    case StoreWrptr => AppendMemory(s);
    case FreeHead => HeadMemory(s);
    case CallFree(_) => NoCall(s, a);
    case _ => QuietMemory(s, a);
  }

  /** Only the server calls mii_free. */
  lemma NoCall(s: System, a: P.Action)
    requires a.CallFree?
    ensures !Enabled(s, Memory(a))
  {}

  lemma MemoryInv(s: System, a: P.Action)
    requires Inv(s) && Enabled(s, Memory(a))
    ensures Inv(Step(s, Memory(a)))
  {
    P.StepInv(s.ring, a);
    hide P.Inv, P.Step, Ledger, TokenInv, Carries, CursorInv;
    MemoryCarries(s, a);
    CarriesLedger(s, MemoryStep(s, a));
  }

  // ---------- steps that concern one client's port ----------

  /** Every client keeps its history and its queue content. */
  ghost predicate Swaps(s: System, s': System) {
    && |s.clients| == |s'.clients|
    && s'.ring == s.ring && s'.cursor == s.cursor && s'.base == s.base && s'.taken == s.taken
    && s'.frames == s.frames && s'.freeCalls == s.freeCalls
    && forall k :: 0 <= k < |s.clients| ==> SameQueue(s.clients[k], PhaseOf(s, k), s'.clients[k], PhaseOf(s', k))
  }

  predicate SameQueue(c: Client, ph: Phase, c': Client, ph': Phase) {
    && c.link.Valid() && c'.link.Valid()
    && c'.log == c.log && c'.link.dropped == c.link.dropped
    && Live(c', ph') == Live(c, ph)
  }

  lemma {:induction false} SameHolders(cs: seq<Client>, cs': seq<Client>, n: nat)
    requires |cs| == |cs'|
    requires forall j :: 0 <= j < |cs| ==> cs'[j].log == cs[j].log
    ensures Holders(cs', n) == Holders(cs, n)
  {
    if cs != [] {
      SameHolders(cs[..|cs| - 1], cs'[..|cs| - 1], n);
    }
  }

  lemma SwapBalance(s: System, s': System, i: nat)
    requires Ledger(s) && Swaps(s, s') && i < s.taken
    ensures Balanced(s', i)
  {
    hide ClientLedger, Delivery, FreeOnce, Holders;
    assert Balanced(s, i);
    forall k | 0 <= k < |s.clients|
      ensures s'.clients[k].log == s.clients[k].log
    {
      assert SameQueue(s.clients[k], PhaseOf(s, k), s'.clients[k], PhaseOf(s', k));
    }
    hide SameQueue, CursorInv;
    SameHolders(s.clients, s'.clients, s.base + i);
  }

  lemma SwapHistory(s: System, s': System)
    requires Ledger(s) && Swaps(s, s')
    ensures CursorInv(s') && FreeOnce(s')
  {
    hide ClientLedger, Delivery, Balanced;
    assert forall k: nat :: k < |s.ring.fifo| ==> Released(s', k) == Released(s, k);
  }

  lemma SwapLedger(s: System, s': System)
    requires Ledger(s) && Swaps(s, s')
    ensures Ledger(s')
  {
    SwapHistory(s, s');
    hide ClientLedger, Delivery, Balanced, CursorInv, FreeOnce;
    forall i | 0 <= i < s'.taken
      ensures Balanced(s', i)
    {
      SwapBalance(s, s', i);
    }
    forall k | 0 <= k < |s'.clients|
      ensures ClientLedger(s', s'.clients[k], PhaseOf(s', k)) && Delivery(s', s'.clients[k])
    {
      SwapClient(s, s', k);
    }
  }

  lemma SwapClient(s: System, s': System, k: nat)
    requires Ledger(s) && Swaps(s, s') && k < |s.clients|
    ensures ClientLedger(s', s'.clients[k], PhaseOf(s', k)) && Delivery(s', s'.clients[k])
  {
    var c, c', ph, ph' := s.clients[k], s'.clients[k], PhaseOf(s, k), PhaseOf(s', k);
    assert ClientLedger(s, c, ph) && Delivery(s, c) && SameQueue(c, ph, c', ph');
    assert Pending(c') == Pending(c) && Live(c', ph') == Live(c, ph);
    forall i | 0 <= i < |Pending(c')|
      ensures At(s', Pending(c')[i], Live(c', ph')[i])
    {
      assert At(s, Pending(c)[i], Live(c, ph)[i]);
    }
  }

  predicate PortEvent(e: Event) { e.Start? || e.WakeUp? || e.Acked? || e.Granted? || e.ServeOp? || e.ServeCmd? }

  lemma OthersKeepTokens(s: System, s': System, j: nat)
    requires Tokens(s) && j < |s.clients| == |s'.clients|
    requires forall k :: 0 <= k < |s.clients| && k != j ==> s'.clients[k] == s.clients[k]
    requires forall k :: 0 <= k < |s.clients| && k != j ==> PhaseOf(s', k) == PhaseOf(s, k)
    requires s'.phase.Away? || s'.who < |s.clients|
    requires TokenInv(s'.clients[j], PhaseOf(s', j))
    ensures Tokens(s')
  {}

  lemma PortTokens(s: System, e: Event)
    requires Tokens(s) && Enabled(s, e) && PortEvent(e)
    ensures Tokens(Step(s, e))
  {
    var s', j := Step(s, e), e.j;
    var c, ph := s.clients[j], PhaseOf(s, j);
    hide TokenInv;
    ClientStepTokens(c, ph, if e.Start? then e.req else Query);
    ServerStepTokens(c, ph);
    OthersKeepTokens(s, s', j);
  }

  /** Only ports, and positions other than between sending and popping, change. */
  lemma PortEffect(s: System, e: Event, k: nat)
    requires Enabled(s, e) && PortEvent(e) && k < |s.clients|
    ensures var s' := Step(s, e);
            && |s'.clients| == |s.clients|
            && s'.clients[k].link == s.clients[k].link && s'.clients[k].log == s.clients[k].log
            && (PhaseOf(s', k).Popping? <==> PhaseOf(s, k).Popping?)
            && s' == s.(clients := s'.clients, who := s'.who, phase := s'.phase)
  {}

  lemma SameQueueOf(c: Client, ph: Phase, c': Client, ph': Phase)
    requires c.link.Valid() && c'.link == c.link && c'.log == c.log && (ph'.Popping? <==> ph.Popping?)
    ensures SameQueue(c, ph, c', ph')
  {}

  lemma PortSwaps(s: System, e: Event)
    requires Inv(s) && Enabled(s, e) && PortEvent(e)
    ensures Swaps(s, Step(s, e))
  {
    hide P.Inv, Ledger, TokenInv, Enabled, Step, SameQueue;
    var s' := Step(s, e);
    if s.clients == [] {
      NoClients(s, e);
    } else {
      PortEffect(s, e, 0);
    }
    forall k | 0 <= k < |s.clients|
      ensures |s'.clients| == |s.clients|
      ensures SameQueue(s.clients[k], PhaseOf(s, k), s'.clients[k], PhaseOf(s', k))
    {
      ValidLink(s.clients[k], PhaseOf(s, k));
      PortEffect(s, e, k);
      SameQueueOf(s.clients[k], PhaseOf(s, k), s'.clients[k], PhaseOf(s', k));
    }
  }

  lemma NoClients(s: System, e: Event)
    requires PortEvent(e) && s.clients == []
    ensures !Enabled(s, e)
  {}

  lemma PortInv(s: System, e: Event)
    requires Inv(s) && Enabled(s, e) && PortEvent(e)
    ensures Inv(Step(s, e))
  {
    PortTokens(s, e);
    PortSwaps(s, e);
    hide P.Inv, Ledger, Tokens;
    SwapLedger(s, Step(s, e));
  }

  lemma FinishedSwaps(s: System, j: nat)
    requires Inv(s) && Enabled(s, Finished(j))
    ensures Swaps(s, Step(s, Finished(j)))
  {
    hide P.Inv, Ledger, TokenInv, Finish;
    var s' := Step(s, Finished(j));
    FinishedLive(s.clients[j], PhaseOf(s, j));
    forall k | 0 <= k < |s.clients|
      ensures SameQueue(s.clients[k], PhaseOf(s, k), s'.clients[k], PhaseOf(s', k))
    {
      assert TokenInv(s.clients[k], PhaseOf(s, k));
      ValidLink(s.clients[k], PhaseOf(s, k));
    }
  }

  lemma ValidLink(c: Client, ph: Phase)
    requires TokenInv(c, ph)
    ensures c.link.Valid()
  {}

  lemma FinishedInv(s: System, j: nat)
    requires Inv(s) && Enabled(s, Finished(j))
    ensures Inv(Step(s, Finished(j)))
  {
    FinishedSwaps(s, j);
    hide P.Inv, Ledger, TokenInv, Swaps;
    var s' := Step(s, Finished(j));
    ServerStepTokens(s.clients[j], PhaseOf(s, j));
    OthersKeepTokens(s, s', j);
    SwapLedger(s, s');
  }

  lemma FinishedLive(c: Client, ph: Phase)
    requires TokenInv(c, ph) && (ph.Popping? || ph.Deciding? || ph.Renotifying?)
    ensures c.link.Valid() && Finish(c, ph).link.Valid()
    ensures Live(Finish(c, ph), Away) == Live(c, ph)
    ensures Finish(c, ph).log == c.log && Finish(c, ph).link.dropped == c.link.dropped
  {
    if ph.Popping? {
      PopRemovesOldest(c.link);
      assert c.link.Queue()[1..] == c.link.Pop().Queue();
      assert Finish(c, ph).link.Queue() == c.link.Pop().Queue();
    } else {
      assert Finish(c, ph).link.Queue() == c.link.Queue();
    }
  }

  // ---------- a frame is taken ----------

  /** The cursor's record is committed, live and staged, and its link leads to the next one. */
  lemma CursorReads(s: System, result: bv32)
    requires P.Inv(s.ring) && CursorInv(s) && Enabled(s, TakeFrame(result))
    ensures s.taken < |s.ring.fifo| && s.cursor == s.ring.fifo[s.taken].addr
    ensures s.ring.fifo[s.taken].staged && !s.ring.fifo[s.taken].freed
    ensures P.Load(s.ring.pool, s.cursor) == Node(s.ring.pool, s.ring.fifo, s.taken + 1) > 0
    ensures P.IsLive(s.ring.fifo, s.cursor)
  {
    assert !Released(s, s.taken);
    assert RecordAt(s.ring.pool, s.ring.fifo, s.taken);
  }

  /** The ring step that process_received_frame ends with. */
  function TakeAction(s: System, result: bv32): P.Action {
    var tcount := Accepting(s.clients, result);
    if tcount == 0 then P.CallFree(s.cursor) else P.SetHeader(s.taken, TCOUNT, tcount - 1)
  }

  lemma TakeRing(s: System, result: bv32)
    requires P.Inv(s.ring) && CursorInv(s) && Enabled(s, TakeFrame(result))
    ensures P.Enabled(s.ring, TakeAction(s, result))
    ensures TakeStep(s, result).ring == P.Step(s.ring, TakeAction(s, result))
    ensures P.Inv(TakeStep(s, result).ring)
    ensures TakeStep(s, result).ring.fifo == s.ring.fifo
    ensures TakeStep(s, result).ring.pool.wrptr == s.ring.pool.wrptr
  {
    TakeRingIs(s, result);
    hide P.Inv, P.Enabled, P.Step, TakeAction, TakeStep, CursorInv, Enabled;
    P.StepInv(s.ring, TakeAction(s, result));
  }

  lemma TakeRingIs(s: System, result: bv32)
    requires P.Inv(s.ring) && CursorInv(s) && Enabled(s, TakeFrame(result))
    ensures P.Enabled(s.ring, TakeAction(s, result))
    ensures TakeStep(s, result).ring == P.Step(s.ring, TakeAction(s, result))
    ensures TakeStep(s, result).ring.fifo == s.ring.fifo
    ensures TakeStep(s, result).ring.pool.wrptr == s.ring.pool.wrptr
  {
    CursorReads(s, result);
    hide P.Inv, P.IsLive, Accepting, OfferAll;
  }

  lemma TakeRingInv(s: System, result: bv32)
    requires P.Inv(s.ring) && CursorInv(s) && Enabled(s, TakeFrame(result))
    ensures P.Inv(TakeStep(s, result).ring)
    ensures s.taken < |s.ring.fifo| && TakeStep(s, result).ring.fifo == s.ring.fifo
  {
    CursorReads(s, result);
    TakeRing(s, result);
  }

  lemma TakeReleased(s: System, result: bv32, i: nat)
    requires P.Inv(s.ring) && CursorInv(s) && Enabled(s, TakeFrame(result)) && i < |s.ring.fifo|
    ensures Released(TakeStep(s, result), i)
            == if i == s.taken then Accepting(s.clients, result) == 0 else Released(s, i)
  {
    CursorReads(s, result);
    if i != s.taken { P.ApartFromRecord(s.ring.pool, s.ring.fifo, i, 0, s.taken, 0); }
  }

  lemma TakeCount(s: System, result: bv32, i: nat)
    requires P.Inv(s.ring) && CursorInv(s) && Enabled(s, TakeFrame(result)) && i <= s.taken
    ensures i < |s.ring.fifo|
    ensures P.Load(TakeStep(s, result).ring.pool, s.ring.fifo[i].addr + TCOUNT)
            == if i == s.taken && Accepting(s.clients, result) > 0 then Accepting(s.clients, result) - 1
               else P.Load(s.ring.pool, s.ring.fifo[i].addr + TCOUNT)
  {
    CursorReads(s, result);
    if i != s.taken {
      P.ApartFromRecord(s.ring.pool, s.ring.fifo, i, TCOUNT, s.taken, TCOUNT);
    } else {
      assert s.ring.pool.Usable(s.cursor);
    }
  }

  /** Frame base + i joins the frames passed to mii_free, for the first time. */
  lemma FreeOnceExtends(s: System, s': System, i: nat)
    requires s.taken <= |s.ring.fifo| && s'.taken <= |s'.ring.fifo| && FreeOnce(s)
    requires s'.base == s.base && i < s'.taken && s.taken <= s'.taken
    requires s'.freeCalls == s.freeCalls + [s.base + i]
    requires i < s.taken ==> !Released(s, i)
    requires forall k: nat :: k < s'.taken ==> (Released(s', k) <==> k == i || (k < s.taken && Released(s, k)))
    ensures FreeOnce(s')
  {
    hide Released;
    assert s.base + i !in s.freeCalls;
    forall n: nat
      ensures n in s'.freeCalls <==> n < s'.base || (n < s'.base + s'.taken && Released(s', n - s'.base))
    {
      assert n in s'.freeCalls <==> n in s.freeCalls || n == s.base + i;
    }
  }

  lemma FreeOnceKeeps(s: System, s': System)
    requires s.taken <= |s.ring.fifo| && s'.taken <= |s'.ring.fifo| && FreeOnce(s)
    requires s'.base == s.base && s.taken <= s'.taken && s'.freeCalls == s.freeCalls
    requires forall k: nat :: k < s'.taken ==> (Released(s', k) <==> k < s.taken && Released(s, k))
    ensures FreeOnce(s')
  {
    hide Released;
  }

  /** What a take changes of the cursor and the history. */
  lemma TakeShape(s: System, result: bv32)
    ensures var s' := TakeStep(s, result);
            && s'.taken == s.taken + 1 && s'.base == s.base && s'.frames == s.frames
            && s'.cursor == P.Load(s.ring.pool, s.cursor)
  {
    hide Accepting, OfferAll, BeginFree, PutWord, P.Load;
  }

  lemma TakeCursor(s: System, result: bv32)
    requires P.Inv(s.ring) && CursorInv(s) && Enabled(s, TakeFrame(result))
    ensures CursorInv(TakeStep(s, result))
  {
    var s' := TakeStep(s, result);
    CursorReads(s, result);
    TakeRing(s, result);
    TakeShape(s, result);
    hide P.Inv, Released, TakeStep, Enabled, CursorInv;
    forall i | s'.taken <= i < |s'.ring.fifo|
      ensures !Released(s', i)
    {
      TakeReleased(s, result, i);
      CursorLive(s, i);
    }
    CursorMoves(s, s');
  }

  lemma CursorLive(s: System, i: nat)
    requires CursorInv(s) && s.taken <= i < |s.ring.fifo|
    ensures !Released(s, i)
  {
    hide Released;
  }

  lemma CursorMoves(s: System, s': System)
    requires CursorInv(s) && s.taken < |s.ring.fifo| && s.ring.fifo[s.taken].staged
    requires s'.ring.fifo == s.ring.fifo && s'.ring.pool.wrptr == s.ring.pool.wrptr
    requires s'.base == s.base && s'.frames == s.frames && s'.taken == s.taken + 1
    requires s'.cursor == Node(s.ring.pool, s.ring.fifo, s.taken + 1)
    requires forall i :: s'.taken <= i < |s'.ring.fifo| ==> !Released(s', i)
    ensures CursorInv(s')
  {
    hide Released;
  }

  lemma TakeHistory(s: System, result: bv32)
    requires P.Inv(s.ring) && CursorInv(s) && FreeOnce(s) && Enabled(s, TakeFrame(result))
    ensures CursorInv(TakeStep(s, result)) && FreeOnce(TakeStep(s, result))
  {
    var s' := TakeStep(s, result);
    CursorReads(s, result);
    TakeCursor(s, result);
    hide P.Inv, FreeOnce, CursorInv, Released, Accepting, OfferAll;
    forall i: nat | i < |s.ring.fifo|
      ensures Released(s', i) == if i == s.taken then Accepting(s.clients, result) == 0 else Released(s, i)
    {
      TakeReleased(s, result, i);
    }
    if Accepting(s.clients, result) == 0 {
      FreeOnceExtends(s, s', s.taken);
    } else {
      FreeOnceKeeps(s, s');
    }
  }

  lemma Fresh(s: System, j: nat)
    requires Ledger(s) && j < |s.clients|
    ensures !Holding(s.clients[j], s.base + s.taken)
    ensures s.clients[j].link.Valid() && s.clients[j].log.done <= |s.clients[j].log.accepted|
  {
    assert ClientLedger(s, s.clients[j], PhaseOf(s, j));
  }

  lemma TakeHolders(s: System, result: bv32, n: nat)
    requires Ledger(s)
    ensures Holders(TakeStep(s, result).clients, n)
            == if n == s.base + s.taken then Accepting(s.clients, result) else Holders(s.clients, n)
  {
    hide CursorInv, FreeOnce, ClientLedger, Delivery, Balanced, Accepting, OfferAll, Holders, Released;
    forall j | 0 <= j < |s.clients|
      ensures s.clients[j].link.Valid() && s.clients[j].log.done <= |s.clients[j].log.accepted|
      ensures !Holding(s.clients[j], s.base + s.taken)
    {
      Fresh(s, j);
    }
    HoldersAfterOffer(s.clients, result, s.cursor + HEADER, s.base + s.taken, n);
  }

  lemma TakeBalance(s: System, result: bv32, i: nat)
    requires Inv(s) && Enabled(s, TakeFrame(result)) && i <= s.taken
    ensures i < |s.ring.fifo| == |TakeStep(s, result).ring.fifo|
    ensures Balanced(TakeStep(s, result), i)
  {
    hide P.Inv, FreeOnce, ClientLedger, Delivery, Tokens, Accepting, OfferAll, Holders, Released, CursorInv;
    TakeCount(s, result, i);
    TakeReleased(s, result, i);
    TakeHolders(s, result, s.base + i);
    if i < s.taken { assert Balanced(s, i); }
  }

  /** A client's ledger after the server has taken one more frame and perhaps queued it. */
  lemma ClientLedgerExtends(s: System, s': System, c: Client, c': Client, buf: int, took: bool)
    requires s.taken < |s.ring.fifo| && ClientLedger(s, c, Away)
    requires s'.ring.fifo == s.ring.fifo && s'.base == s.base && s'.taken == s.taken + 1
    requires buf == s.ring.fifo[s.taken].addr + HEADER
    requires c'.link.Valid() && c'.log.done == c.log.done
    requires took ==> c'.log.accepted == c.log.accepted + [s.base + s.taken]
                      && c'.link.Queue() == c.link.Queue() + [buf]
    requires !took ==> c'.log.accepted == c.log.accepted && c'.link.Queue() == c.link.Queue()
    ensures ClientLedger(s', c', Away)
  {
    forall k | 0 <= k < |Pending(c')|
      ensures At(s', Pending(c')[k], Live(c', Away)[k])
    {
      if k < |Pending(c)| { assert At(s, Pending(c)[k], Live(c, Away)[k]); }
    }
  }

  lemma TakeClient(s: System, result: bv32, j: nat)
    requires Inv(s) && Enabled(s, TakeFrame(result)) && j < |s.clients|
    ensures var s' := TakeStep(s, result);
            && s'.taken <= |s'.ring.fifo|
            && ClientLedger(s', s'.clients[j], PhaseOf(s', j))
  {
    hide P.Inv, CursorInv, FreeOnce, Balanced, Released, Accepting, Tokens, Delivery, ClientLedger;
    var s', buf, n := TakeStep(s, result), s.cursor + HEADER, s.base + s.taken;
    var c := s.clients[j];
    CursorReads(s, result);
    assert ClientLedger(s, c, PhaseOf(s, j));
    Fresh(s, j);
    OfferOutcome(c, result, buf, n);
    hide Offer, Takes;
    ClientLedgerExtends(s, s', c, s'.clients[j], buf, Takes(c, result));
  }

  lemma OfferDelivery(s: System, s': System, c: Client, result: bv32, buf: int, n: nat)
    requires c.link.Valid() && Delivery(s, c) && s'.frames == s.frames
    ensures Delivery(s', Offer(c, result, buf, n))
  {
    OfferOutcome(c, result, buf, n);
    hide Takes, Matches, Offer, Stream.CarriesFrame;
    var c' := Offer(c, result, buf, n);
    assert forall k :: 0 <= k < c.log.done ==> c'.log.accepted[k] == c.log.accepted[k];
  }

  lemma TakeDelivery(s: System, result: bv32, j: nat)
    requires Ledger(s) && Enabled(s, TakeFrame(result)) && j < |s.clients|
    ensures Delivery(TakeStep(s, result), TakeStep(s, result).clients[j])
  {
    Fresh(s, j);
    hide CursorInv, FreeOnce, Balanced, Accepting, ClientLedger, Delivery, Offer;
    OfferDelivery(s, TakeStep(s, result), s.clients[j], result, s.cursor + HEADER, s.base + s.taken);
  }

  lemma TakeTokens(s: System, result: bv32)
    requires Tokens(s) && Enabled(s, TakeFrame(result))
    ensures Tokens(TakeStep(s, result))
  {
    hide TokenInv, Accepting;
    var s' := TakeStep(s, result);
    forall j | 0 <= j < |s'.clients|
      ensures TokenInv(s'.clients[j], PhaseOf(s', j))
    {
      assert TokenInv(s.clients[j], Away);
      ValidLink(s.clients[j], Away);
      OfferTokens(s.clients[j], result, s.cursor + HEADER, s.base + s.taken);
    }
  }

  lemma TakeInv(s: System, result: bv32)
    requires Inv(s) && Enabled(s, TakeFrame(result))
    ensures Inv(TakeStep(s, result))
  {
    var s' := TakeStep(s, result);
    TakeRingInv(s, result);
    TakeHistory(s, result);
    TakeTokens(s, result);
    hide P.Inv, CursorInv, FreeOnce, Balanced, Delivery, ClientLedger, Accepting, Tokens;
    forall i | 0 <= i < s'.taken
      ensures i < |s'.ring.fifo| && Balanced(s', i)
    {
      TakeBalance(s, result, i);
    }
    forall j | 0 <= j < |s'.clients|
      ensures s'.taken <= |s'.ring.fifo|
      ensures ClientLedger(s', s'.clients[j], PhaseOf(s', j)) && Delivery(s', s'.clients[j])
    {
      TakeClient(s, result, j);
      TakeDelivery(s, result, j);
    }
  }

  // ---------- a frame is handed to a client ----------

  /** A frame exchange that really sends a frame. */
  predicate Sends(s: System, j: nat) {
    && Enabled(s, Meet(j))
    && s.phase.req.Frame? && s.clients[j].link.wants != 2 && !s.clients[j].link.IsEmpty()
  }

  /** Record i of the ring is what client j is about to be sent. */
  ghost predicate Serves(s: System, j: nat, i: nat) {
    && j < |s.clients| && s.who == j && s.phase.Meeting? && s.clients[j].link.Valid()
    && s.ring.freer.NotFreeing?
    && s.clients[j].log.done < |s.clients[j].log.accepted|
    && s.clients[j].log.accepted[s.clients[j].log.done] == s.base + i
    && i < s.taken <= |s.ring.fifo|
    && !Released(s, i)
  }

  /** The head slot designates a taken, live record. */
  lemma HeadSlot(s: System, j: nat) returns (i: nat)
    requires Ledger(s) && Sends(s, j)
    ensures Serves(s, j, i)
    ensures s.clients[j].link.fifo[s.clients[j].link.rd] == s.ring.fifo[i].addr + HEADER
  {
    var c, ph := s.clients[j], PhaseOf(s, j);
    assert ClientLedger(s, c, ph);
    QueueBound(c.link);
    PopRemovesOldest(c.link);
    assert At(s, Pending(c)[0], Live(c, ph)[0]);
    assert Holding(c, Pending(c)[0]);
    HeldIsLive(s, j, Pending(c)[0]);
    i := Pending(c)[0] - s.base;
  }

  function Count(s: System, i: nat): int
    requires i < |s.ring.fifo|
  {
    P.Load(s.ring.pool, s.ring.fifo[i].addr + TCOUNT)
  }

  /** The exchange in terms of the record it serves. */
  function ServeStep(s: System, j: nat, i: nat): System
    requires j < |s.clients| && i < |s.ring.fifo|
  {
    var a := s.ring.fifo[i].addr;
    s.(ring := if Count(s, i) == 0 then BeginFree(s.ring, a) else PutWord(s.ring, a + TCOUNT, Count(s, i) - 1),
       phase := Popping,
       clients := s.clients[j := MeetFrame(s.clients[j], Send(s.ring.pool, a)).0],
       freeCalls := if Count(s, i) == 0 then s.freeCalls + [s.base + i] else s.freeCalls)
  }

  lemma ServeRing(s: System, j: nat, i: nat)
    requires P.Inv(s.ring) && Serves(s, j, i)
    ensures P.Inv(ServeStep(s, j, i).ring)
  {
    var a, count := s.ring.fifo[i].addr, Count(s, i);
    var act := if count == 0 then P.CallFree(a) else P.SetHeader(i, TCOUNT, count - 1);
    assert !s.ring.fifo[i].freed;
    assert P.IsLive(s.ring.fifo, a);
    hide P.Inv, P.IsLive;
    P.StepInv(s.ring, act);
    assert P.Step(s.ring, act) == ServeStep(s, j, i).ring;
  }

  lemma ServeReleased(s: System, j: nat, i: nat, k: nat)
    requires P.Inv(s.ring) && Serves(s, j, i) && k < |s.ring.fifo|
    ensures Released(ServeStep(s, j, i), k) == if k == i then Count(s, i) == 0 else Released(s, k)
  {
    if k != i { P.ApartFromRecord(s.ring.pool, s.ring.fifo, k, 0, i, 0); }
    hide P.Inv;
  }

  lemma ServeCount(s: System, j: nat, i: nat, k: nat)
    requires P.Inv(s.ring) && Serves(s, j, i) && k < |s.ring.fifo|
    ensures Count(ServeStep(s, j, i), k) == if k == i && Count(s, i) != 0 then Count(s, i) - 1 else Count(s, k)
  {
    ServesRecord(s, j, i);
    ServeMemory(s, j, i);
    hide P.Inv, Released, P.Store, P.Load, ServeStep, Serves, BeginFree, PutWord;
    CountStored(s.ring, i, k, Count(s, i) - 1);
  }

  lemma ServeMemory(s: System, j: nat, i: nat)
    requires j < |s.clients| && i < |s.ring.fifo|
    ensures var s', x := ServeStep(s, j, i), s.ring.fifo[i].addr + TCOUNT;
            && s'.ring.fifo == s.ring.fifo
            && s'.ring.pool == if Count(s, i) == 0 then s.ring.pool else PutWord(s.ring, x, Count(s, i) - 1).pool
  {
    hide Send, P.Load, P.Store;
  }

  lemma CountStored(ring: P.State, i: nat, k: nat, v: int)
    requires P.Inv(ring) && i < |ring.fifo| && k < |ring.fifo|
    ensures P.Load(PutWord(ring, ring.fifo[i].addr + TCOUNT, v).pool, ring.fifo[k].addr + TCOUNT)
            == if k == i then v else P.Load(ring.pool, ring.fifo[k].addr + TCOUNT)
  {
    UsableRecord(ring, i);
    UsableRecord(ring, k);
    if k != i { P.ApartFromRecord(ring.pool, ring.fifo, k, TCOUNT, i, TCOUNT); }
    hide P.Inv, Ordered;
  }

  lemma UsableRecord(ring: P.State, i: nat)
    requires P.Inv(ring) && i < |ring.fifo|
    ensures Ordered(ring.pool, ring.fifo)
    ensures 0 <= ring.fifo[i].addr + TCOUNT < |ring.pool.mem|
  {
    assert ring.pool.Usable(ring.fifo[i].addr);
  }

  lemma ServeHistory(s: System, j: nat, i: nat)
    requires P.Inv(s.ring) && CursorInv(s) && FreeOnce(s) && Serves(s, j, i)
    ensures CursorInv(ServeStep(s, j, i)) && FreeOnce(ServeStep(s, j, i))
  {
    var s' := ServeStep(s, j, i);
    hide P.Inv, FreeOnce;
    forall k: nat | k < |s.ring.fifo|
      ensures Released(s', k) == if k == i then Count(s, i) == 0 else Released(s, k)
    {
      ServeReleased(s, j, i, k);
    }
    hide Released, Count;
    if Count(s, i) == 0 {
      FreeOnceExtends(s, s', i);
    } else {
      FreeOnceKeeps(s, s');
    }
  }

  /** The served client no longer holds the frame; it held it once. */
  lemma ServePending(s: System, j: nat, i: nat, n: nat)
    requires Ledger(s) && Serves(s, j, i)
    ensures var c, c' := s.clients[j], ServeStep(s, j, i).clients[j];
            && |Pending(c)| > 0 && Pending(c)[0] == s.base + i && Pending(c') == Pending(c)[1..]
            && (Holding(c', n) <==> Holding(c, n) && n != s.base + i)
  {
    var c, c' := s.clients[j], ServeStep(s, j, i).clients[j];
    assert ClientLedger(s, c, PhaseOf(s, j));
    hide Ledger, Released;
    assert Pending(c') == Pending(c)[1..];
    assert forall k :: 0 < k < |Pending(c)| ==> Pending(c)[0] < Pending(c)[k];
  }

  lemma ServeBalance(s: System, j: nat, i: nat, k: nat)
    requires P.Inv(s.ring) && Ledger(s) && Serves(s, j, i) && k < s.taken
    ensures Balanced(ServeStep(s, j, i), k)
  {
    hide *;
    ServesRecord(s, j, i);
    WasBalanced(s, k);
    ServeShape(s, j, i);
    ServeHolders(s, j, i, s.base + k);
    ServeCount(s, j, i, k);
    ServeReleased(s, j, i, k);
    BalanceServed(s, ServeStep(s, j, i), i, k);
  }

  lemma WasBalanced(s: System, k: nat)
    requires Ledger(s) && k < s.taken
    ensures k < |s.ring.fifo| && Balanced(s, k)
  {
    hide FreeOnce, ClientLedger, Delivery, Balanced;
  }

  lemma ServesRecord(s: System, j: nat, i: nat)
    requires Serves(s, j, i)
    ensures j < |s.clients| && i < s.taken <= |s.ring.fifo| && !Released(s, i)
  {
    hide Released;
  }

  lemma ServeShape(s: System, j: nat, i: nat)
    requires j < |s.clients| && i < |s.ring.fifo|
    ensures ServeStep(s, j, i).ring.fifo == s.ring.fifo && ServeStep(s, j, i).base == s.base
    ensures var cs := ServeStep(s, j, i).clients; |cs| == |s.clients| && cs == s.clients[j := cs[j]]
  {
    hide Count, Send;
  }

  lemma HoldersDrop(cs: seq<Client>, cs': seq<Client>, j: nat, served: nat, n: nat)
    requires j < |cs| == |cs'| && cs' == cs[j := cs'[j]]
    requires |Pending(cs[j])| > 0 && Pending(cs[j])[0] == served
    requires Holding(cs'[j], n) <==> Holding(cs[j], n) && n != served
    ensures Holders(cs', n) == Holders(cs, n) - if n == served then 1 else 0
  {
    HoldersUpdate(cs, j, cs'[j], n);
    HeadIsHeld(cs[j]);
    hide Holders, Holding, Pending;
  }

  /** One holder of the served frame less. */
  lemma ServeHolders(s: System, j: nat, i: nat, n: nat)
    requires Ledger(s) && Serves(s, j, i) && i < |s.ring.fifo|
    ensures Holders(ServeStep(s, j, i).clients, n) == Holders(s.clients, n) - if n == s.base + i then 1 else 0
  {
    hide *;
    ServesRecord(s, j, i);
    ServeShape(s, j, i);
    ServePending(s, j, i, n);
    HoldersDrop(s.clients, ServeStep(s, j, i).clients, j, s.base + i, n);
  }

  lemma BalanceServed(s: System, s': System, i: nat, k: nat)
    requires k < |s.ring.fifo| && i < |s.ring.fifo| && s'.ring.fifo == s.ring.fifo && s'.base == s.base
    requires Balanced(s, k) && !Released(s, i)
    requires Holders(s'.clients, s.base + k) == Holders(s.clients, s.base + k) - if k == i then 1 else 0
    requires Count(s', k) == if k == i && Count(s, i) != 0 then Count(s, i) - 1 else Count(s, k)
    requires Released(s', k) == if k == i then Count(s, i) == 0 else Released(s, k)
    ensures Balanced(s', k)
  {
    hide Released, Holders;
  }

  lemma HeadIsHeld(c: Client)
    requires |Pending(c)| > 0
    ensures Holding(c, Pending(c)[0])
  {}

  /** The ledger of the served client, whose head slot is now stale. */
  lemma ServedClient(s: System, s': System, c: Client, c': Client, ph: Phase)
    requires s.taken <= |s.ring.fifo| && ClientLedger(s, c, ph) && !ph.Popping? && |Pending(c)| > 0
    requires s'.ring.fifo == s.ring.fifo && s'.base == s.base && s'.taken == s.taken
    requires c'.link == c.link && c'.log.accepted == c.log.accepted && c'.log.done == c.log.done + 1
    ensures ClientLedger(s', c', Popping)
  {
    assert Pending(c') == Pending(c)[1..] && Live(c', Popping) == Live(c, ph)[1..];
    forall l | 0 <= l < |Pending(c')|
      ensures At(s', Pending(c')[l], Live(c', Popping)[l])
    {
      assert At(s, Pending(c)[l + 1], Live(c, ph)[l + 1]);
    }
  }

  lemma ClientLedgerCarries(s: System, s': System, c: Client, ph: Phase, ph': Phase)
    requires s.taken <= |s.ring.fifo| && ClientLedger(s, c, ph) && ph.Popping? == ph'.Popping?
    requires s'.ring.fifo == s.ring.fifo && s'.base == s.base && s'.taken == s.taken
    ensures ClientLedger(s', c, ph')
  {
    forall l | 0 <= l < |Pending(c)|
      ensures At(s', Pending(c)[l], Live(c, ph')[l])
    {
      assert At(s, Pending(c)[l], Live(c, ph)[l]);
    }
  }

  lemma ServeClient(s: System, j: nat, i: nat, k: nat)
    requires Ledger(s) && Serves(s, j, i) && k < |s.clients|
    ensures ClientLedger(ServeStep(s, j, i), ServeStep(s, j, i).clients[k], PhaseOf(ServeStep(s, j, i), k))
  {
    var s' := ServeStep(s, j, i);
    assert ClientLedger(s, s.clients[k], PhaseOf(s, k));
    ServePending(s, j, i, 0);
    hide Ledger, Released;
    if k == j {
      hide ClientLedger;
      ServedClient(s, s', s.clients[k], s'.clients[k], PhaseOf(s, k));
    } else {
      ClientLedgerCarries(s, s', s.clients[k], PhaseOf(s, k), PhaseOf(s', k));
    }
  }

  lemma FrameAt(s: System, i: nat)
    requires CursorInv(s) && i < |s.ring.fifo|
    ensures s.base + i < |s.frames|
    ensures s.frames[s.base + i] == FrameRecord(s.ring.fifo[i].data, s.ring.fifo[i].length)
  {}

  /** What the client receives is what was committed. */
  lemma ServeDelivery(s: System, j: nat, i: nat, k: nat)
    requires P.Inv(s.ring) && Ledger(s) && Serves(s, j, i) && k < |s.clients|
    ensures Delivery(ServeStep(s, j, i), ServeStep(s, j, i).clients[k])
  {
    hide P.Inv, CursorInv, ClientLedger, Balanced, FreeOnce, Released, Send, Stream.CarriesFrame, Count;
    assert Delivery(s, s.clients[k]);
    if k == j {
      SentIsCommitted(s.ring, i);
      FrameAt(s, i);
    }
  }

  lemma SentIsCommitted(ring: P.State, i: nat)
    requires P.Inv(ring) && i < |ring.fifo|
    ensures Stream.CarriesFrame(Send(ring.pool, ring.fifo[i].addr), ring.fifo[i].data, ring.fifo[i].length)
  {
    Stream.FrameWordsAreCommitted(ring.pool, ring.fifo, i);
    assert ring.pool.Usable(ring.fifo[i].addr);
  }

  lemma ServeInv(s: System, j: nat, i: nat)
    requires P.Inv(s.ring) && Ledger(s) && Serves(s, j, i)
    ensures P.Inv(ServeStep(s, j, i).ring) && Ledger(ServeStep(s, j, i))
  {
    var s' := ServeStep(s, j, i);
    ServeRing(s, j, i);
    ServeHistory(s, j, i);
    hide P.Inv, CursorInv, FreeOnce, Balanced, Delivery, ClientLedger;
    forall k | 0 <= k < s'.taken
      ensures k < |s'.ring.fifo| && Balanced(s', k)
    {
      ServeBalance(s, j, i, k);
    }
    forall k | 0 <= k < |s'.clients|
      ensures s'.taken <= |s'.ring.fifo|
      ensures ClientLedger(s', s'.clients[k], PhaseOf(s', k)) && Delivery(s', s'.clients[k])
    {
      ServeClient(s, j, i, k);
      ServeDelivery(s, j, i, k);
    }
  }

  lemma MeetTokens(s: System, j: nat)
    requires Inv(s) && Enabled(s, Meet(j))
    ensures Tokens(Step(s, Meet(j)))
  {
    hide TokenInv, P.Inv, Ledger;
    var c := s.clients[j];
    RendezvousIsClean(c, PhaseOf(s, j), Send(s.ring.pool, c.link.fifo[c.link.rd] - HEADER));
    OthersKeepTokens(s, Step(s, Meet(j)), j);
  }

  lemma CommandKeepsQueue(c: Client, ph: Phase)
    requires TokenInv(c, ph) && ph.Meeting?
    ensures var (c', ph') := MeetCommand(c, ph.req, ph.renotify); SameQueue(c, ph, c', ph')
    ensures SameQueue(c, ph, MeetStatus(c).0, Deciding)
  {
    var c1, c2 := MeetCommand(c, ph.req, ph.renotify).0, MeetStatus(c).0;
    assert c1.link.Queue() == c.link.Queue() && c2.link.Queue() == c.link.Queue();
  }

  lemma Unchanged(c: Client, ph: Phase)
    requires TokenInv(c, ph)
    ensures SameQueue(c, ph, c, ph)
  {}

  /** The rendezvous of any other request, or of a status packet. */
  lemma MeetSwaps(s: System, j: nat)
    requires Inv(s) && Enabled(s, Meet(j)) && !Sends(s, j)
    ensures Swaps(s, Step(s, Meet(j)))
  {
    hide TokenInv, P.Inv, Ledger, SameQueue, MeetCommand, MeetStatus, MeetFrameStep;
    var s', c := Step(s, Meet(j)), s.clients[j];
    RendezvousIsClean(c, PhaseOf(s, j), []);
    CommandKeepsQueue(c, PhaseOf(s, j));
    forall k | 0 <= k < |s.clients|
      ensures SameQueue(s.clients[k], PhaseOf(s, k), s'.clients[k], PhaseOf(s', k))
    {
      Unchanged(s.clients[k], PhaseOf(s, k));
    }
  }

  lemma MeetIsServe(s: System, j: nat, i: nat)
    requires Enabled(s, Meet(j)) && Sends(s, j) && Serves(s, j, i)
    requires s.clients[j].link.fifo[s.clients[j].link.rd] == s.ring.fifo[i].addr + HEADER
    ensures Step(s, Meet(j)) == ServeStep(s, j, i)
  {
    hide Released, Send;
  }

  lemma MeetInv(s: System, j: nat)
    requires Inv(s) && Enabled(s, Meet(j))
    ensures Inv(Step(s, Meet(j)))
  {
    MeetTokens(s, j);
    hide Tokens, P.Inv, Ledger, Step, Serves, Swaps;
    if Sends(s, j) {
      var i := HeadSlot(s, j);
      MeetIsServe(s, j, i);
      ServeInv(s, j, i);
    } else {
      MeetSwaps(s, j);
      SwapLedger(s, Step(s, Meet(j)));
      SwapsKeepRing(s, Step(s, Meet(j)));
    }
  }

  lemma SwapsKeepRing(s: System, s': System)
    requires Swaps(s, s')
    ensures s'.ring == s.ring
  {}

  lemma StatusKeepsQueue(c: Client)
    requires TokenInv(c, Away) && (c.link.wants != 0 ==> c.link.notified)
    ensures TokenInv(StatusChange(c), Away) && SameQueue(c, Away, StatusChange(c), Away)
  {
    StatusChangeTokensIff(c);
    assert StatusChange(c).link.Queue() == c.link.Queue();
  }

  /** The link-status branch, when it sends no token. */
  lemma LinkChangeInv(s: System)
    requires Inv(s) && Enabled(s, LinkChange) && Quiet(s)
    ensures Inv(Step(s, LinkChange))
  {
    hide P.Inv, Ledger, TokenInv, SameQueue, StatusChange;
    var s' := Step(s, LinkChange);
    forall k | 0 <= k < |s.clients|
      ensures SameQueue(s.clients[k], PhaseOf(s, k), s'.clients[k], PhaseOf(s', k))
      ensures TokenInv(s'.clients[k], PhaseOf(s', k))
    {
      assert TokenInv(s.clients[k], Away);
      StatusKeepsQueue(s.clients[k]);
    }
    SwapLedger(s, s');
  }

  // ---------- main results ----------

  lemma InitTokens(s: System)
    requires IsInit(s)
    ensures Tokens(s)
  {
    forall j | 0 <= j < |s.clients|
      ensures TokenInv(s.clients[j], PhaseOf(s, j))
    {
      assert s.clients[j] == InitClient(s.clients[j].link.fifo);
    }
  }

  lemma InitInv(s: System)
    requires IsInit(s)
    ensures Inv(s)
  {
    InitTokens(s);
    hide TokenInv;
  }

  lemma StepInv(s: System, e: Event)
    requires Inv(s) && Enabled(s, e) && (e.LinkChange? ==> Quiet(s))
    ensures Inv(Step(s, e))
  {
    match e
    case Memory(a) => MemoryInv(s, a);
    case TakeFrame(result) => TakeInv(s, result);
    case Start(_, _) => PortInv(s, e);
    case WakeUp(_) => PortInv(s, e);
    case Acked(_) => PortInv(s, e);
    case Granted(_) => PortInv(s, e);
    case ServeOp(_) => PortInv(s, e);
    case ServeCmd(_) => PortInv(s, e);
    case Meet(j) => MeetInv(s, j);
    case Finished(j) => FinishedInv(s, j);
    case LinkChange => LinkChangeInv(s);
  }
}
