/** Progress of the receive path: no reachable state deadlocks, and no frame, operation or
    release can be under way for ever. */
module Progress {
  import opened RingPool
  import opened Links
  import opened Protocol
  import opened RxSystem
  import opened SystemProofs
  import opened SystemTheorems
  import P = PoolSteps
  import T = PoolTheorems

  /** Nothing to do: every committed frame has been taken, the server is in its select outside
      mii_free, and every client is between operations or waits for a frame while its queue is
      empty. */
  predicate Quiescent(s: System) {
    && s.phase.Away? && s.ring.freer.NotFreeing? && s.cursor == s.ring.pool.wrptr
    && forall j :: 0 <= j < |s.clients| ==>
         s.clients[j].port.pc.AtRest? || (s.clients[j].port.pc.Waiting? && s.clients[j].link.IsEmpty())
  }

  /** Steps that carry a committed frame, an operation or a release forward. */
  predicate Advances(e: Event) {
    match e
    case Memory(a) => a.FreeHead? || a.FreeWrptr? || a.FreeNext? || a.SetStage?
    case TakeFrame(_) => true
    case WakeUp(_) => true
    case Acked(_) => true
    case Granted(_) => true
    case ServeOp(_) => true
    case ServeCmd(_) => true
    case Meet(_) => true
    case Finished(_) => true
    case _ => false
  }

  /** A committed frame that has not been taken can be staged by the filter, or taken. */
  lemma FrameWaits(s: System) returns (e: Event)
    requires Inv(s) && s.phase.Away? && s.ring.freer.NotFreeing?
    requires s.cursor != s.ring.pool.wrptr
    ensures Enabled(s, e) && Advances(e)
  {
    hide Tokens, FreeOnce, Balanced, ClientLedger, Delivery;
    assert s.taken < |s.ring.fifo|;
    assert RecordAt(s.ring.pool, s.ring.fifo, s.taken) && s.ring.pool.Usable(s.cursor);
    if s.ring.fifo[s.taken].staged {
      e := TakeFrame(RxSystem.Word(P.Load(s.ring.pool, s.cursor + FILTER)));
    } else {
      e := Memory(P.SetStage(s.taken));
    }
  }

  /** No reachable state deadlocks: short of quiescence some operation can advance. */
  lemma NoDeadlock(s: System) returns (e: Event)
    requires Inv(s) && !Quiescent(s)
    ensures Enabled(s, e) && Advances(e)
  {
    hide P.Inv, Ledger;
    match s.ring.freer {
      case AtHead(_, _) => return Memory(P.FreeHead);
      case AtWrptr(_) => return Memory(P.FreeWrptr);
      case AtNext(_) => return Memory(P.FreeNext);
      case NotFreeing =>
    }
    if !s.phase.Away? {
      var j := s.who;
      assert TokenInv(s.clients[j], s.phase);
      return match s.phase
        case AwaitCmd(_) => (if s.clients[j].port.pc.AwaitAck? then Acked(j) else ServeCmd(j))
        case Meeting(_, _) => (if s.clients[j].port.pc.AwaitGrant? then Granted(j) else Meet(j))
        case _ => Finished(j);
    }
    if s.cursor != s.ring.pool.wrptr {
      e := FrameWaits(s);
      return;
    }
    var j :| 0 <= j < |s.clients| && !s.clients[j].port.pc.AtRest?
             && !(s.clients[j].port.pc.Waiting? && s.clients[j].link.IsEmpty());
    assert TokenInv(s.clients[j], Away);
    return if s.clients[j].port.pc.Waiting? then WakeUp(j) else ServeOp(j);
  }

  /** No reachable state deadlocks. */
  lemma NoDeadlockInAnyRun(trace: seq<System>, events: seq<Event>, i: nat) returns (e: Event)
    requires IsRun(trace, events) && i < |trace| && !Quiescent(trace[i])
    ensures Enabled(trace[i], e) && Advances(e)
  {
    RunInv(trace, events, i);
    e := NoDeadlock(trace[i]);
  }

  // ---------- every operation ends ----------

  /** What filter and server still have to do with committed frames. */
  function Undone(q: seq<Packet>): nat {
    if q == [] then 0 else (if q[0].staged then 1 else 2) + Undone(q[1..])
  }

  function FrameRank(s: System): nat {
    if s.taken <= |s.ring.fifo| then Undone(s.ring.fifo[s.taken..]) else 0
  }

  lemma {:induction false} SameUndone(q: seq<Packet>, q': seq<Packet>)
    requires |q| == |q'| && forall i :: 0 <= i < |q| ==> q'[i].staged == q[i].staged
    ensures Undone(q') == Undone(q)
  {
    if q != [] { SameUndone(q[1..], q'[1..]); }
  }

  lemma {:induction false} StagedUndone(q: seq<Packet>, i: nat)
    requires i < |q| && !q[i].staged
    ensures Undone(q[i := q[i].(staged := true)]) < Undone(q)
  {
    if i > 0 {
      StagedUndone(q[1..], i - 1);
      assert q[i := q[i].(staged := true)][1..] == q[1..][i - 1 := q[i].(staged := true)];
    }
  }

  function PcRank(pc: ClientPc): nat {
    match pc
    case AtRest => 0
    case Exchanging(_) => 1
    case AwaitGrant(_) => 2
    case AwaitAck(_) => 7
    case Waiting(_) => 12
  }

  /** What a client and the messages it has sent still need; a message is worth the steps of
      the server and of the client that its answer leads to. */
  function ClientRank(c: Client): nat { PcRank(c.port.pc) + 4 * |c.port.toServer| }

  function ClientsRank(cs: seq<Client>): nat {
    if cs == [] then 0 else ClientsRank(cs[..|cs| - 1]) + ClientRank(cs[|cs| - 1])
  }

  function PhaseRank(ph: Phase): nat {
    match ph
    case Away => 0
    case AwaitCmd(_) => 3
    case Meeting(_, _) => 2
    case _ => 1
  }

  function Rank(s: System): nat { PhaseRank(s.phase) + ClientsRank(s.clients) }

  lemma {:induction false} RankUpdate(cs: seq<Client>, j: nat, c: Client)
    requires j < |cs|
    ensures ClientsRank(cs[j := c]) + ClientRank(cs[j]) == ClientsRank(cs) + ClientRank(c)
  {
    var m := |cs| - 1;
    if j == m {
      assert cs[j := c][..m] == cs[..m];
    } else {
      assert cs[j := c][..m] == cs[..m][j := c];
      RankUpdate(cs[..m], j, c);
    }
  }

  /** A step of a client or of the server for a client lowers the rank of the operations. */
  lemma ClientLowers(s: System, e: Event)
    requires Enabled(s, e) && Advances(e) && !e.Memory? && !e.Meet? && !e.TakeFrame?
    ensures Rank(Step(s, e)) < Rank(s) && FrameRank(Step(s, e)) == FrameRank(s)
  {
    hide ClientsRank, Links.Link.Valid, Undone;
    RankUpdate(s.clients, e.j, Step(s, e).clients[e.j]);
  }

  lemma MeetLowers(s: System, j: nat)
    requires Enabled(s, Meet(j))
    ensures Rank(Step(s, Meet(j))) < Rank(s) && FrameRank(Step(s, Meet(j))) == FrameRank(s)
  {
    hide ClientsRank, Send, P.Load, P.Store, Undone;
    var c := Step(s, Meet(j)).clients[j];
    RankUpdate(s.clients, j, c);
    assert Step(s, Meet(j)).clients == s.clients[j := c];
  }

  lemma ReleaseLowers(s: System, a: P.Action)
    requires Inv(s) && Enabled(s, Memory(a)) && (a.FreeHead? || a.FreeWrptr? || a.FreeNext?)
    ensures Rank(Step(s, Memory(a))) == Rank(s) && FrameRank(Step(s, Memory(a))) == FrameRank(s)
    ensures T.FreeRank(Step(s, Memory(a)).ring) < T.FreeRank(s.ring)
  {
    T.FreeTerminates(s.ring, a);
    ReleaseKeepsFrames(s, a);
    hide P.Step, P.Inv, T.FreeRank, ClientsRank, Ledger, Tokens, FrameRank;
  }

  /** A release reclaims or marks taken frames only. */
  lemma ReleaseKeepsFrames(s: System, a: P.Action)
    requires Inv(s) && Enabled(s, Memory(a)) && (a.FreeHead? || a.FreeWrptr? || a.FreeNext?)
    ensures FrameRank(MemoryStep(s, a)) == FrameRank(s)
  {
    TakenBound(s);
    if a.FreeHead? {
      P.FreeHeadView(s.ring);
      MemoryTotal(s, a);
      HeadKeepsFrames(s);
    }
    hide Inv, Undone;
  }

  lemma HeadKeepsFrames(s: System)
    requires Enabled(s, Memory(P.FreeHead)) && s.taken <= |s.ring.fifo|
    requires var s' := MemoryStep(s, P.FreeHead);
             if s.ring.freer.h == s.ring.pool.rdptr then
               |s.ring.fifo| > 0 && s'.ring.fifo == s.ring.fifo[1..] && s'.base + s'.taken == s.base + s.taken
             else s'.ring.fifo == P.Mark(s.ring.fifo, s.ring.freer.h)
    ensures FrameRank(MemoryStep(s, P.FreeHead)) == FrameRank(s)
  {
    var s' := MemoryStep(s, P.FreeHead);
    hide Undone, P.Store, P.Load;
    if s.ring.freer.h == s.ring.pool.rdptr {
      assert s'.ring.fifo[s'.taken..] == s.ring.fifo[s.taken..];
    } else {
      SameUndone(s.ring.fifo[s.taken..], s'.ring.fifo[s.taken..]);
    }
  }

  lemma StageLowers(s: System, i: nat)
    requires Inv(s) && Enabled(s, Memory(P.SetStage(i)))
    ensures FrameRank(Step(s, Memory(P.SetStage(i)))) < FrameRank(s)
  {
    var q, q' := s.ring.fifo, MemoryStep(s, P.SetStage(i)).ring.fifo;
    TakenBound(s);
    Untaken(s, i);
    hide Inv, Undone;
    StagedUndone(q[s.taken..], i - s.taken);
    assert q'[s.taken..] == q[s.taken..][i - s.taken := q[i].(staged := true)];
  }

  lemma Untaken(s: System, i: nat)
    requires Inv(s) && i < |s.ring.fifo| && !s.ring.fifo[i].staged
    ensures s.taken <= i
  {
    hide P.Inv, Tokens;
  }

  lemma TakeLowers(s: System, result: bv32)
    requires Inv(s) && Enabled(s, TakeFrame(result))
    ensures FrameRank(Step(s, TakeFrame(result))) < FrameRank(s)
  {
    CursorReads(s, result);
    TakeRing(s, result);
    TakeShape(s, result);
    hide P.Inv, Ledger, Tokens, TakeStep;
    assert s.ring.fifo[s.taken..][1..] == s.ring.fifo[s.taken + 1..];
  }

  /** Every step that advances a frame, an operation or a release lowers (frames left, operations
      left, release left), in this order: there is no livelock. */
  lemma AdvanceLowers(s: System, e: Event)
    requires Inv(s) && Enabled(s, e) && Advances(e)
    ensures var s' := Step(s, e);
            || FrameRank(s') < FrameRank(s)
            || (FrameRank(s') == FrameRank(s) && Rank(s') < Rank(s))
            || (FrameRank(s') == FrameRank(s) && Rank(s') == Rank(s) && T.FreeRank(s'.ring) < T.FreeRank(s.ring))
  {
    hide Inv, Enabled, Step, Rank, FrameRank, T.FreeRank;
    match e
    case Memory(a) =>
      if a.SetStage? { StageLowers(s, a.index); } else { ReleaseLowers(s, a); }
    case TakeFrame(result) => TakeLowers(s, result);
    case Meet(j) => MeetLowers(s, j);
    case _ => ClientLowers(s, e);
  }

  /** From every reachable state the committed frames, operations and releases can be run to
      their end: every committed frame taken, the server back in its select, every client
      between operations or waiting for a frame that has not been committed. */
  lemma {:induction false} ReachesQuiescence(s: System) returns (trace: seq<System>, events: seq<Event>)
    requires Inv(s)
    ensures |trace| == |events| + 1 && trace[0] == s && Quiescent(trace[|events|])
    ensures forall i :: 0 <= i < |events| ==>
              Enabled(trace[i], events[i]) && Advances(events[i]) && trace[i + 1] == Step(trace[i], events[i])
    decreases FrameRank(s), Rank(s), T.FreeRank(s.ring)
  {
    hide Inv, Enabled, Step, FrameRank, Rank, T.FreeRank, Quiescent;
    trace, events := [s], [];
    if !Quiescent(s) {
      var e := NoDeadlock(s);
      AdvanceLowers(s, e);
      StepInv(s, e);
      trace, events := ReachesQuiescence(Step(s, e));
      trace, events := [s] + trace, [e] + events;
    }
  }

  lemma QuiescenceInAnyRun(trace: seq<System>, events: seq<Event>, i: nat)
    returns (more: seq<System>, steps: seq<Event>)
    requires IsRun(trace, events) && i < |trace|
    ensures |more| == |steps| + 1 && more[0] == trace[i] && Quiescent(more[|steps|])
    ensures forall k :: 0 <= k < |steps| ==>
              Enabled(more[k], steps[k]) && Advances(steps[k]) && more[k + 1] == Step(more[k], steps[k])
  {
    hide *;
    RunInv(trace, events, i);
    more, steps := ReachesQuiescence(trace[i]);
  }
}
