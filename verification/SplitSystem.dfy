/** The receive path over the ring of SplitFree: mii_free's three stores are separate steps, and
    producer, filter and clients may act between them.  What the server guarantees survives
    exactly when the ring does. */
module SplitSystem {
  import opened RingPool
  import opened Bytes
  import opened Protocol
  import opened RxSystem
  import opened SystemProofs
  import opened SystemTheorems
  import F = SplitFree
  import P = PoolSteps
  import StatusTokens
  import Stream

  datatype Split = Split(sys: System, window: F.Window)

  datatype SplitEvent =
    | Ev(e: Event)
    | MoveRdptr      // line 167
    | SetFlag        // lines 168-171
    | ClearLink      // line 174

  function Ring(t: Split): F.SplitState { F.SplitState(t.sys.ring, t.window) }

  predicate SplitEnabled(t: Split, b: SplitEvent) {
    match b
    case Ev(e) => Enabled(t.sys, e) && (e.Memory? ==> F.SplitEnabled(Ring(t), F.Base(e.act)))
    case MoveRdptr => F.SplitEnabled(Ring(t), F.StoreRdptr)
    case SetFlag => F.SplitEnabled(Ring(t), F.StoreFlag)
    case ClearLink => F.SplitEnabled(Ring(t), F.ClearOld)
  }

  function SplitStep(t: Split, b: SplitEvent): Split
    requires SplitEnabled(t, b)
  {
    var s := t.sys;
    match b
    case Ev(e) => t.(sys := Step(s, e))
    case MoveRdptr =>
      var r := F.SplitStep(Ring(t), F.StoreRdptr);
      Split(s.(ring := r.core, base := s.base + 1, taken := if s.taken > 0 then s.taken - 1 else 0), r.window)
    case SetFlag =>
      var r := F.SplitStep(Ring(t), F.StoreFlag);
      Split(s.(ring := r.core), r.window)
    case ClearLink =>
      var r := F.SplitStep(Ring(t), F.ClearOld);
      Split(s.(ring := r.core), r.window)
  }

  /** The state, were rdptr_at_start up to date. */
  function Current(t: Split): System { t.sys.(ring := F.Repaired(Ring(t))) }

  /** The link still to be cleared is not the reference count of a frame the server has taken. */
  predicate Apart(t: Split) {
    !t.window.Shut? ==>
      forall i :: 0 <= i < t.sys.taken && i < |t.sys.ring.fifo| ==> t.window.prev != t.sys.ring.fifo[i].addr + TCOUNT
  }

  /** The combined invariant, with the flag as it is at each of the three stores. */
  ghost predicate SplitInv(t: Split) { F.SplitInv(Ring(t)) && Inv(Current(t)) && Apart(t) }

  /** The two hazards of the ring, and a status change that meets an un-notified subscriber. */
  predicate Hazard(t: Split, b: SplitEvent)
    requires SplitEnabled(t, b)
  {
    match b
    case Ev(e) => (e.Memory? && F.Hazard(Ring(t), F.Base(e.act))) || (e.LinkChange? && !Quiet(t.sys))
    case ClearLink => F.Hazard(Ring(t), F.ClearOld)
    case _ => false
  }

  // ---------- with no store of mii_free outstanding ----------

  lemma ShutIsCurrent(t: Split)
    requires SplitInv(t) && t.window.Shut?
    ensures Current(t) == t.sys && Inv(t.sys)
  {
    hide Inv, P.Inv;
  }

  lemma ShutSound(s: System)
    requires Inv(s)
    ensures SplitInv(Split(s, F.Shut))
  {
    assert s.ring.pool.WellFormed();
    hide P.Inv, Tokens, Ledger;
  }

  lemma LoudBreaksSplit(t: Split)
    requires SplitInv(t) && t.window.Shut? && SplitEnabled(t, Ev(LinkChange)) && !Quiet(t.sys)
    ensures !SplitInv(SplitStep(t, Ev(LinkChange)))
  {
    ShutIsCurrent(t);
    StatusTokens.LoudChangeBreaks(t.sys);
    if SplitInv(SplitStep(t, Ev(LinkChange))) { ShutIsCurrent(SplitStep(t, Ev(LinkChange))); }
    hide Inv, Step;
  }

  lemma ShutEventIff(t: Split, e: Event)
    requires SplitInv(t) && SplitEnabled(t, Ev(e)) && t.window.Shut?
    ensures SplitInv(SplitStep(t, Ev(e))) <==> !Hazard(t, Ev(e))
  {
    ShutIsCurrent(t);
    if e.LinkChange? && !Quiet(t.sys) {
      LoudBreaksSplit(t);
    } else {
      StepInv(t.sys, e);
      ShutSound(Step(t.sys, e));
    }
    hide Inv, SplitInv, Step, Quiet;
  }

  // ---------- between the stores ----------

  /** The server is inside mii_free. */
  lemma OpenIsBusy(t: Split)
    requires SplitInv(t) && !t.window.Shut?
    ensures t.sys.ring.freer.AtWrptr?
  {
    hide Inv, P.Inv;
  }

  lemma ClientEventKeeps(t: Split, e: Event)
    requires SplitInv(t) && SplitEnabled(t, Ev(e)) && !t.window.Shut? && !e.Memory?
    ensures SplitInv(SplitStep(t, Ev(e))) && !Hazard(t, Ev(e))
  {
    OpenIsBusy(t);
    assert e.Start? || e.WakeUp? || e.Acked? || e.Granted?;
    assert Enabled(Current(t), e) && Step(Current(t), e) == Current(SplitStep(t, Ev(e)));
    hide Inv, F.SplitInv, P.Inv;
    StepInv(Current(t), e);
  }

  /** What is kept of the ledger when memory changes and the ring is intact. */
  lemma LedgerKept(s: System, s': System)
    requires Inv(s) && P.Inv(s'.ring) && Carries(s, s') && CursorInv(s')
    ensures Inv(s')
  {
    hide P.Inv, CursorInv, TokenInv;
    CarriesLedger(s, s');
  }

  lemma SameAddresses(t: Split, a: P.Action, i: nat)
    requires SplitEnabled(t, Ev(Memory(a))) && i < |t.sys.ring.fifo| && !a.FreeHead?
    ensures var s' := SplitStep(t, Ev(Memory(a))).sys;
            i < |s'.ring.fifo| && s'.ring.fifo[i].addr == t.sys.ring.fifo[i].addr && s'.taken == t.sys.taken
  {
    hide P.Store, P.StoreAll, P.Load;
  }

  lemma MemoryRing(t: Split, a: P.Action)
    requires SplitEnabled(t, Ev(Memory(a)))
    ensures Ring(SplitStep(t, Ev(Memory(a)))) == F.SplitStep(Ring(t), F.Base(a))
  {
    hide P.Step, P.Enabled;
  }

  lemma MemoryApart(t: Split, a: P.Action)
    requires SplitInv(t) && SplitEnabled(t, Ev(Memory(a))) && !t.window.Shut?
    ensures Apart(SplitStep(t, Ev(Memory(a)))) && !a.FreeHead?
  {
    OpenIsBusy(t);
    TakenBound(Current(t));
    var t' := SplitStep(t, Ev(Memory(a)));
    hide Inv, F.SplitInv;
    forall i | 0 <= i < t'.sys.taken && i < |t'.sys.ring.fifo|
      ensures t'.window.prev != t'.sys.ring.fifo[i].addr + TCOUNT
    {
      SameTaken(t, a);
      SameAddresses(t, a, i);
    }
  }

  lemma SameTaken(t: Split, a: P.Action)
    requires SplitEnabled(t, Ev(Memory(a))) && !a.FreeHead?
    ensures SplitStep(t, Ev(Memory(a))).sys.taken == t.sys.taken
  {
    hide P.Step;
  }

  /** An action that takes the same course as with the flag up to date. */
  lemma AgreeingKeeps(t: Split, a: P.Action)
    requires SplitInv(t) && SplitEnabled(t, Ev(Memory(a))) && !t.window.Shut?
    requires P.Enabled(F.Repaired(Ring(t)), a)
    requires F.Repaired(F.SplitStep(Ring(t), F.Base(a))) == P.Step(F.Repaired(Ring(t)), a)
    ensures Inv(Current(SplitStep(t, Ev(Memory(a)))))
  {
    MemoryApart(t, a);
    MemoryRing(t, a);
    assert Enabled(Current(t), Memory(a));
    assert MemoryStep(Current(t), a) == Current(SplitStep(t, Ev(Memory(a)))) by {
      hide P.Step, P.Enabled, F.SplitStep, Inv;
    }
    hide Inv, F.SplitInv, P.Step, MemoryStep;
    MemoryInv(Current(t), a);
  }

  /** A frame discarded on a flag that is still set. */
  lemma DiscardKeeps(t: Split)
    requires SplitInv(t) && SplitEnabled(t, Ev(Memory(P.Decide))) && !t.window.Shut?
    requires !F.Hazard(Ring(t), F.Base(P.Decide))
    requires F.Repaired(F.SplitStep(Ring(t), F.Base(P.Decide))) != P.Step(F.Repaired(Ring(t)), P.Decide)
    ensures Inv(Current(SplitStep(t, Ev(Memory(P.Decide)))))
  {
    F.StepKeepsIff(Ring(t), F.Base(P.Decide));
    F.DecideAgreesIff(Ring(t));
    MemoryRing(t, P.Decide);
    var s, s' := Current(t), Current(SplitStep(t, Ev(Memory(P.Decide))));
    assert s' == s.(ring := s.ring.(prod := P.Idle)) by { hide Inv, P.Inv; }
    assert P.Inv(s'.ring);
    hide P.Inv, F.SplitInv, F.SplitStep, F.Hazard, P.Step, SplitStep;
    IdleCarries(s);
    LedgerKept(s, s');
  }

  lemma IdleCarries(s: System)
    requires Inv(s)
    ensures var s' := s.(ring := s.ring.(prod := P.Idle)); Carries(s, s') && CursorInv(s')
  {
    var s' := s.(ring := s.ring.(prod := P.Idle));
    assert forall k: nat :: k < |s.ring.fifo| ==> Released(s', k) == Released(s, k);
    hide P.Inv, Tokens, FreeOnce, Balanced, ClientLedger, Delivery, Released;
  }

  lemma OpenMemoryIff(t: Split, a: P.Action)
    requires SplitInv(t) && SplitEnabled(t, Ev(Memory(a))) && !t.window.Shut?
    ensures SplitInv(SplitStep(t, Ev(Memory(a)))) <==> !F.Hazard(Ring(t), F.Base(a))
  {
    MemoryRing(t, a);
    MemoryApart(t, a);
    F.StepKeepsIff(Ring(t), F.Base(a));
    if !F.Hazard(Ring(t), F.Base(a)) {
      OpenMemoryKeeps(t, a);
    }
    hide Inv, F.SplitInv, F.Hazard, SplitStep, Apart;
  }

  lemma OpenMemoryKeeps(t: Split, a: P.Action)
    requires SplitInv(t) && SplitEnabled(t, Ev(Memory(a))) && !t.window.Shut? && !F.Hazard(Ring(t), F.Base(a))
    ensures Inv(Current(SplitStep(t, Ev(Memory(a)))))
  {
    hide Inv, F.SplitInv, F.Hazard, SplitStep, F.SplitStep, P.Step, Current, F.Repaired;
    if a.Decide? {
      DecideSame(t);
      if F.Repaired(F.SplitStep(Ring(t), F.Base(a))) == P.Step(F.Repaired(Ring(t)), a) {
        AgreeingKeeps(t, a);
      } else {
        DiscardKeeps(t);
      }
    } else {
      F.RepairCommutes(Ring(t), a);
      AgreeingKeeps(t, a);
    }
  }

  lemma DecideSame(t: Split)
    requires SplitEnabled(t, Ev(Memory(P.Decide)))
    ensures P.Enabled(F.Repaired(Ring(t)), P.Decide)
  {}

  // ---------- the three stores ----------

  lemma MoveReleased(s: System)
    requires Inv(s) && s.ring.freer.AtHead? && s.ring.freer.h == s.ring.pool.rdptr
    ensures |s.ring.fifo| > 0 && s.taken > 0 && s.taken <= |s.ring.fifo| && s.ring.fifo[0].addr == s.ring.freer.h
    ensures Released(s, 0) && forall i :: 0 < i < |s.ring.fifo| ==> s.ring.fifo[i].addr != s.ring.freer.h
  {
    P.FreeHeadView(s.ring);
    hide P.Inv, Tokens, FreeOnce, Balanced, ClientLedger, Delivery;
    assert Released(s, 0);
  }

  lemma MoveShape(t: Split)
    requires SplitEnabled(t, MoveRdptr) && |t.sys.ring.fifo| > 0 && t.sys.taken > 0
    ensures var s, s' := t.sys, Current(SplitStep(t, MoveRdptr));
            && s'.ring.fifo == s.ring.fifo[1..] && s'.ring.freer.AtWrptr? && s'.ring.pool.mem == s.ring.pool.mem
            && s'.ring.pool.wrptr == s.ring.pool.wrptr
            && s' == s.(ring := s'.ring, base := s.base + 1, taken := s.taken - 1)
  {}

  /** The oldest frame, released, leaves; memory is as before. */
  ghost predicate Drops(s: System, s': System) {
    && |s.ring.fifo| > 0 && 0 < s.taken <= |s.ring.fifo| && s'.ring.fifo == s.ring.fifo[1..]
    && s'.ring.freer.AtWrptr? && s.ring.freer.AtHead?
    && s'.ring.pool.mem == s.ring.pool.mem && s'.ring.pool.wrptr == s.ring.pool.wrptr
    && s' == s.(ring := s'.ring, base := s.base + 1, taken := s.taken - 1)
    && forall i :: 0 < i < |s.ring.fifo| ==> s.ring.fifo[i].addr != s.ring.freer.h
  }

  lemma DropReleased(s: System, s': System, k: nat)
    requires Drops(s, s') && 0 < k < |s.ring.fifo|
    ensures Released(s', k - 1) == Released(s, k) && s'.ring.fifo[k - 1] == s.ring.fifo[k]
  {}

  lemma DropCursor(s: System, s': System)
    requires CursorInv(s) && Drops(s, s')
    ensures CursorInv(s')
  {
    forall i | s'.taken <= i < |s'.ring.fifo|
      ensures !Released(s', i)
    {
      DropReleased(s, s', i + 1);
      CursorLive(s, i + 1);
    }
    hide Released;
  }

  lemma DropCarries(s: System, s': System)
    requires Drops(s, s') && Released(s, 0)
    ensures Carries(s, s')
  {
    forall n: nat | s'.base <= n < s'.base + s'.taken
      ensures SameFrame(s, s', n)
    {
      DropReleased(s, s', n - s.base);
    }
    hide Released;
  }

  lemma MoveDrops(t: Split)
    requires SplitInv(t) && SplitEnabled(t, MoveRdptr)
    ensures Drops(t.sys, Current(SplitStep(t, MoveRdptr))) && Released(t.sys, 0) && Inv(t.sys)
  {
    ShutIsCurrent(t);
    MoveReleased(t.sys);
    MoveShape(t);
    hide SplitStep, Current, Inv, F.SplitInv, Released;
  }

  lemma MoveCarries(t: Split)
    requires SplitInv(t) && SplitEnabled(t, MoveRdptr)
    ensures Carries(t.sys, Current(SplitStep(t, MoveRdptr))) && CursorInv(Current(SplitStep(t, MoveRdptr)))
  {
    hide *;
    MoveDrops(t);
    CursorOf(t.sys);
    DropCursor(t.sys, Current(SplitStep(t, MoveRdptr)));
    DropCarries(t.sys, Current(SplitStep(t, MoveRdptr)));
  }

  lemma CursorOf(s: System)
    requires Inv(s)
    ensures CursorInv(s)
  {
    hide P.Inv, Tokens, CursorInv;
  }

  lemma MoveApart(t: Split)
    requires SplitInv(t) && SplitEnabled(t, MoveRdptr)
    ensures Apart(SplitStep(t, MoveRdptr))
  {
    ShutIsCurrent(t);
    MoveReleased(t.sys);
    forall i | 0 < i < |t.sys.ring.fifo|
      ensures t.sys.ring.pool.rdptr != t.sys.ring.fifo[i].addr + TCOUNT
    {
      P.ApartFromRecord(t.sys.ring.pool, t.sys.ring.fifo, i, TCOUNT, 0, 0);
    }
    hide Inv, F.SplitInv;
  }

  lemma MoveKeeps(t: Split)
    requires SplitInv(t) && SplitEnabled(t, MoveRdptr)
    ensures SplitInv(SplitStep(t, MoveRdptr))
  {
    var t' := SplitStep(t, MoveRdptr);
    F.MoveKeeps(Ring(t));
    assert Ring(t') == F.SplitStep(Ring(t), F.StoreRdptr);
    assert P.Inv(Current(t').ring);
    ShutIsCurrent(t);
    hide Inv, P.Inv, F.SplitStep, SplitStep, Current, Carries, CursorInv, Apart, F.SplitEnabled;
    MoveCarries(t);
    LedgerKept(t.sys, Current(t'));
    MoveApart(t);
  }

  lemma FlagKeeps(t: Split)
    requires SplitInv(t) && SplitEnabled(t, SetFlag)
    ensures SplitInv(SplitStep(t, SetFlag))
  {
    F.StepKeepsIff(Ring(t), F.StoreFlag);
    assert Current(SplitStep(t, SetFlag)) == Current(t);
    hide Inv, P.Inv;
  }

  /** One word of memory changes, which is no reference count of a taken frame. */
  lemma WordCarries(s: System, s': System, x: int)
    requires CursorInv(s) && s' == s.(ring := s.ring.(pool := P.Store(s.ring.pool, x, 0)))
    requires forall i :: 0 <= i < s.taken ==> x != s.ring.fifo[i].addr + TCOUNT
    ensures Carries(s, s') && CursorInv(s')
  {
    assert forall k: nat :: k < |s.ring.fifo| ==> Released(s', k) == Released(s, k);
    hide Released;
  }

  lemma ClearCarries(t: Split)
    requires SplitInv(t) && SplitEnabled(t, ClearLink)
    ensures Carries(Current(t), Current(SplitStep(t, ClearLink))) && CursorInv(Current(SplitStep(t, ClearLink)))
  {
    CursorOf(Current(t));
    TakenBound(Current(t));
    ClearShape(t);
    hide Inv, F.SplitInv, CursorInv, SplitStep, Current;
    WordCarries(Current(t), Current(SplitStep(t, ClearLink)), t.window.prev);
  }

  lemma ClearShape(t: Split)
    requires SplitEnabled(t, ClearLink)
    ensures var s, s' := Current(t), Current(SplitStep(t, ClearLink));
            s' == s.(ring := s.ring.(pool := P.Store(s.ring.pool, t.window.prev, 0)))
    ensures Current(t).ring.fifo == t.sys.ring.fifo && Current(t).taken == t.sys.taken
  {}

  lemma ClearKeepsIff(t: Split)
    requires SplitInv(t) && SplitEnabled(t, ClearLink)
    ensures SplitInv(SplitStep(t, ClearLink)) <==> !Hazard(t, ClearLink)
  {
    var t' := SplitStep(t, ClearLink);
    F.StepKeepsIff(Ring(t), F.ClearOld);
    assert Ring(t') == F.SplitStep(Ring(t), F.ClearOld) && t'.window.Shut?;
    if !Hazard(t, ClearLink) {
      assert P.Inv(Current(t').ring);
      ClearCarries(t);
      hide P.Inv, Carries, CursorInv, F.SplitStep, SplitStep, Current, F.Hazard;
      LedgerKept(Current(t), Current(t'));
    } else {
      hide Inv, P.Inv;
    }
  }

  // ---------- every step, every run ----------

  /** Every step of producer, filter, mii_free, server and clients keeps the combined invariant
      exactly when it is no hazard. */
  lemma StepKeepsIff(t: Split, b: SplitEvent)
    requires SplitInv(t) && SplitEnabled(t, b)
    ensures SplitInv(SplitStep(t, b)) <==> !Hazard(t, b)
  {
    hide SplitInv, SplitEnabled, SplitStep;
    match b
    case Ev(e) => EventIff(t, e);
    case MoveRdptr => MoveKeeps(t);
    case SetFlag => FlagKeeps(t);
    case ClearLink => ClearKeepsIff(t);
  }

  lemma EventIff(t: Split, e: Event)
    requires SplitInv(t) && SplitEnabled(t, Ev(e))
    ensures SplitInv(SplitStep(t, Ev(e))) <==> !Hazard(t, Ev(e))
  {
    hide SplitInv, SplitStep, F.Hazard, Quiet;
    if t.window.Shut? {
      ShutEventIff(t, e);
    } else if e.Memory? {
      OpenMemoryIff(t, e.act);
    } else {
      ClientEventKeeps(t, e);
    }
  }

  ghost predicate IsSplitRun(trace: seq<Split>, events: seq<SplitEvent>) {
    && |trace| == |events| + 1
    && IsInit(trace[0].sys) && trace[0].window.Shut?
    && forall i :: 0 <= i < |events| ==> SplitEnabled(trace[i], events[i]) && trace[i + 1] == SplitStep(trace[i], events[i])
  }

  lemma {:induction false} RunKept(trace: seq<Split>, events: seq<SplitEvent>, i: nat)
    requires IsSplitRun(trace, events) && i < |trace|
    requires forall k :: 0 <= k < i ==> !Hazard(trace[k], events[k])
    ensures SplitInv(trace[i])
  {
    hide SplitInv, SplitStep, Hazard, IsInit;
    if i == 0 {
      InitInv(trace[0].sys);
      ShutSound(trace[0].sys);
    } else {
      RunKept(trace, events, i - 1);
      StepKeepsIff(trace[i - 1], events[i - 1]);
    }
  }

  /** A run keeps ring, cursor, counts, queues and tokens throughout exactly when no commit in it
      wraps on a stale flag, no clearing store hits a word in use, and no status change meets an
      un-notified subscriber. */
  lemma RunKeptIff(trace: seq<Split>, events: seq<SplitEvent>)
    requires IsSplitRun(trace, events)
    ensures (forall i :: 0 <= i < |trace| ==> SplitInv(trace[i]))
            <==> (forall i :: 0 <= i < |events| ==> !Hazard(trace[i], events[i]))
  {
    hide SplitInv, SplitStep, Hazard;
    if forall i :: 0 <= i < |trace| ==> SplitInv(trace[i]) {
      forall i | 0 <= i < |events|
        ensures !Hazard(trace[i], events[i])
      {
        assert SplitInv(trace[i]) && SplitInv(trace[i + 1]);
        StepKeepsIff(trace[i], events[i]);
      }
    }
    if forall i :: 0 <= i < |events| ==> !Hazard(trace[i], events[i]) {
      forall i | 0 <= i < |trace|
        ensures SplitInv(trace[i])
      {
        RunKept(trace, events, i);
      }
    }
  }

  /** So in every run without a hazard clients receive, in order of acceptance, the words that
      were committed, every queued buffer is live, and a frame is freed once, by its last
      holder. */
  lemma ServerResults(trace: seq<Split>, events: seq<SplitEvent>, i: nat, j: nat, k: nat, b: nat, n: nat)
    requires IsSplitRun(trace, events) && i < |trace| && j < |trace[i].sys.clients|
    requires forall l :: 0 <= l < i ==> !Hazard(trace[l], events[l])
    ensures var s := trace[i].sys; var c := s.clients[j];
            && |c.log.got| <= |c.log.accepted|
            && (k < |c.log.got| ==>
                  && c.log.accepted[k] < |s.frames|
                  && 0 <= s.frames[c.log.accepted[k]].length <= 4 * |s.frames[c.log.accepted[k]].data|
                  && c.log.got[k] == s.frames[c.log.accepted[k]].data[..(s.frames[c.log.accepted[k]].length + 3) / 4]
                  && s.frames[c.log.accepted[k]].length <= 4 * |c.log.got[k]|
                  && (b < s.frames[c.log.accepted[k]].length ==>
                        FrameByte(c.log.got[k], b) == FrameByte(s.frames[c.log.accepted[k]].data, b)))
            && c.log.matched == |c.log.accepted| + c.log.dropped
            && c.link.Valid() && SlotIsLive(Current(trace[i]), j, k)
            && (n < s.base + s.taken ==> (n in s.freeCalls <==> Holders(s.clients, n) == 0))
  {
    hide SplitStep, Hazard, SplitEnabled;
    RunKept(trace, events, i);
    Results(trace[i], j, k, b, n);
  }

  lemma Results(t: Split, j: nat, k: nat, b: nat, n: nat)
    requires SplitInv(t) && j < |t.sys.clients|
    ensures var s := t.sys; var c := s.clients[j];
            && |c.log.got| <= |c.log.accepted|
            && (k < |c.log.got| ==>
                  && c.log.accepted[k] < |s.frames|
                  && 0 <= s.frames[c.log.accepted[k]].length <= 4 * |s.frames[c.log.accepted[k]].data|
                  && c.log.got[k] == s.frames[c.log.accepted[k]].data[..(s.frames[c.log.accepted[k]].length + 3) / 4]
                  && s.frames[c.log.accepted[k]].length <= 4 * |c.log.got[k]|
                  && (b < s.frames[c.log.accepted[k]].length ==>
                        FrameByte(c.log.got[k], b) == FrameByte(s.frames[c.log.accepted[k]].data, b)))
            && c.log.matched == |c.log.accepted| + c.log.dropped
            && c.link.Valid() && SlotIsLive(Current(t), j, k)
            && (n < s.base + s.taken ==> (n in s.freeCalls <==> Holders(s.clients, n) == 0))
  {
    var s := Current(t);
    HeldBufferIsLive(s, j, k);
    if n < s.base + s.taken { UnheldIffFreed(s, n); }
    assert Delivery(s, s.clients[j]);
    hide P.Inv, Tokens, CursorInv, FreeOnce, Balanced, ClientLedger, SlotIsLive, Holders, Byte;
  }
}
