/** mii_free without the assumption that its stores are one action: the store of rdptr
    (line 167), the store of rdptr_at_start (lines 168-171) and the clearing of the old link
    (line 174) are separate steps, and the producer, which takes no lock, may act between
    them and reads the flag as it is stored.  When the ring survives, and when it does not. */
module SplitFree {
  import opened RingPool
  import opened PoolSteps
  import T = PoolTheorems

  /** What mii_free has still to store after it has moved rdptr away from the record at prev. */
  datatype Window = Shut | FlagDue(prev: int) | ClearDue(prev: int)

  datatype SplitState = SplitState(core: State, window: Window)

  datatype SplitAction =
    | Base(act: Action)
    | StoreRdptr
    | StoreFlag
    | ClearOld

  predicate SplitEnabled(t: SplitState, b: SplitAction) {
    match b
    case Base(a) =>
      && Enabled(t.core, a)
      && (a.FreeWrptr? ==> t.window.Shut?)
      && (a.FreeHead? ==> t.core.freer.h != t.core.pool.rdptr)
    case StoreRdptr => t.window.Shut? && t.core.freer.AtHead? && t.core.freer.h == t.core.pool.rdptr
    case StoreFlag => t.window.FlagDue?
    case ClearOld => t.window.ClearDue?
  }

  function SplitStep(t: SplitState, b: SplitAction): SplitState
    requires SplitEnabled(t, b)
  {
    var s, r := t.core, t.core.pool;
    match b
    case Base(a) => t.(core := Step(s, a))
    case StoreRdptr =>
      var next := Abs(Load(r, r.rdptr));
      SplitState(s.(pool := r.(rdptr := next), freer := AtWrptr(next), fifo := if |s.fifo| > 0 then s.fifo[1..] else []),
                 FlagDue(r.rdptr))
    case StoreFlag =>
      SplitState(s.(pool := r.(atStart := r.rdptr == START)), ClearDue(t.window.prev))
    case ClearOld =>
      SplitState(s.(pool := Store(r, t.window.prev, 0)), Shut)
  }

  function SplitInit(words: seq<int>): SplitState
    requires |words| > START + MIN_USAGE
  {
    SplitState(Init(words), Shut)
  }

  /** The state, were the flag up to date. */
  function Repaired(t: SplitState): State {
    t.core.(pool := t.core.pool.(atStart := t.core.pool.rdptr == START))
  }

  /** The ring invariant, with the flag as it is at each of the three stores. */
  predicate SplitInv(t: SplitState) {
    && Inv(Repaired(t))
    && match t.window
       case Shut => t.core == Repaired(t)
       case FlagDue(prev) =>
         t.core.freer == AtWrptr(t.core.pool.rdptr) && t.core.pool.InRing(prev) && (t.core.pool.atStart <==> prev == START)
       case ClearDue(prev) =>
         t.core.freer == AtWrptr(t.core.pool.rdptr) && t.core.pool.InRing(prev) && t.core == Repaired(t)
  }

  // ---------- the two hazards ----------

  predicate IsDataWord(r: Pool, a: int, k: int, x: int) { x == r.Word(a, DATA + k) }

  /** x is one of the n data words of the record at a. */
  predicate DataWord(r: Pool, a: int, n: int, x: int) { exists k :: 0 <= k < n && IsDataWord(r, a, k, x) }

  /** The words of a committed record that the ring's invariant speaks of. */
  predicate RecordWord(r: Pool, p: Packet, x: int) {
    || x == p.addr || x == p.addr + INFO || x == p.addr + LENGTH || (p.staged && x == p.addr + STAGE)
    || DataWord(r, p.addr, |p.data|, x)
  }

  /** The words the producer has stored of the frame it is filling. */
  predicate FrameWord(r: Pool, prod: Producer, x: int) {
    match prod
    case Idle => false
    case Reserved => x == r.wrptr + INFO
    case Filling(_, f) => x == r.wrptr + INFO || DataWord(r, r.wrptr, |f|, x)
    case Clear(_, f) => x == r.wrptr + INFO || DataWord(r, r.wrptr, |f|, x)
    case Publishing(_, f, _) => x == r.wrptr || x == r.wrptr + INFO || x == r.wrptr + LENGTH || DataWord(r, r.wrptr, |f|, x)
    case _ => x == r.wrptr + INFO || x == r.wrptr + LENGTH || DataWord(r, r.wrptr, |prod.frame|, x)
  }


  predicate InUse(s: State, x: int) {
    (exists i :: 0 <= i < |s.fifo| && RecordWord(s.pool, s.fifo[i], x)) || FrameWord(s.pool, s.prod, x)
  }

  /** mii_commit wraps because it loads the flag before mii_free has set it, while rdptr is
      already at the start; or the old link is cleared after its word has been used again, for
      a header or a data word of a new record that is not 0. */
  predicate Hazard(t: SplitState, b: SplitAction)
    requires SplitEnabled(t, b)
  {
    match b
    case Base(a) =>
      && a.Decide? && NearEnd(t.core.pool, t.core.prod.dptr)
      && t.window.FlagDue? && t.window.prev != START && t.core.pool.rdptr == START
    case ClearOld => Load(t.core.pool, t.window.prev) != 0 && InUse(t.core, t.window.prev)
    case _ => false
  }

  // ---------- steps that do not look at the flag ----------

  lemma {:induction false} StoreAllFlag(r: Pool, x: int, vs: seq<int>, b: bool)
    ensures StoreAll(r.(atStart := b), x, vs) == StoreAll(r, x, vs).(atStart := b)
  {
    if vs != [] { StoreAllFlag(r, x, vs[..|vs| - 1], b); }
  }

  lemma RepairCommutes(t: SplitState, a: Action)
    requires SplitEnabled(t, Base(a)) && !a.Decide?
    ensures Enabled(Repaired(t), a)
    ensures Repaired(SplitStep(t, Base(a))) == Step(Repaired(t), a)
    ensures SplitStep(t, Base(a)).core.pool.rdptr == t.core.pool.rdptr
    ensures SplitStep(t, Base(a)).core.pool.atStart == t.core.pool.atStart
    ensures |SplitStep(t, Base(a)).core.pool.mem| == |t.core.pool.mem|
    ensures !(a.CallFree? || a.FreeHead? || a.FreeWrptr? || a.FreeNext?) ==>
              SplitStep(t, Base(a)).core.freer == t.core.freer
  {
    if a.StartFrame? {
      StoreAllFlag(t.core.pool, t.core.pool.wrptr + DATA, a.words, t.core.pool.rdptr == START);
    }
  }

  lemma BaseKeeps(t: SplitState, a: Action)
    requires SplitInv(t) && SplitEnabled(t, Base(a)) && !a.Decide?
    ensures SplitInv(SplitStep(t, Base(a)))
  {
    RepairCommutes(t, a);
    StepInv(Repaired(t), a);
    hide Inv, Step;
  }

  /** The decision of mii_commit is the one it would take with the flag up to date, unless it is
      about to wrap and the flag is stale. */
  lemma DecideAgreesIff(t: SplitState)
    requires SplitInv(t) && SplitEnabled(t, Base(Decide))
    ensures Repaired(SplitStep(t, Base(Decide))) == Step(Repaired(t), Decide)
            <==> !(NearEnd(t.core.pool, t.core.prod.dptr) && t.window.FlagDue?
                   && (t.window.prev == START) != (t.core.pool.rdptr == START))
  {}

  /** A wrap on a stale flag puts the end pointer on rdptr; a discard on a stale flag loses the
      frame but not the ring. */
  lemma DecideKeepsIff(t: SplitState)
    requires SplitInv(t) && SplitEnabled(t, Base(Decide))
    ensures SplitInv(SplitStep(t, Base(Decide))) <==> !Hazard(t, Base(Decide))
  {
    StepInv(Repaired(t), Decide);
    DecideAgreesIff(t);
    if Hazard(t, Base(Decide)) {
      HazardMisplaces(t);
    }
    hide Chain, ProducerInv, FreerInv;
  }

  lemma HazardMisplaces(t: SplitState)
    requires SplitInv(t) && SplitEnabled(t, Base(Decide)) && Hazard(t, Base(Decide))
    ensures !SplitInv(SplitStep(t, Base(Decide)))
  {
    var t' := SplitStep(t, Base(Decide));
    assert t'.core.prod.Linking? && t'.core.prod.endp == START == t'.core.pool.rdptr;
    hide Chain, FreerInv, Holds;
    assert !(Repaired(t').pool.WellFormed() && Placed(Repaired(t').pool, START, t'.core.prod.frame, t'.core.prod.length));
  }

  // ---------- line 167 ----------

  /** The pool after line 167, were the flag up to date. */
  function Moved(r: Pool): Pool
    requires r.WellFormed()
  {
    var next := Abs(r.mem[r.rdptr]);
    r.(rdptr := next, atStart := next == START)
  }

  /** The old link may stay: it is no word of a remaining record. */
  lemma MovedChain(r: Pool, q: seq<Packet>)
    requires Chain(r, q) && |q| > 0
    ensures Chain(Moved(r), q[1..])
  {
    var r' := Advanced(r);
    Advance(r, q);
    OffAfterAdvance(r, q, r.wrptr);
    assert RecordAt(r, q, 0);
    assert r'.Off(r'.wrptr) <= r'.Off(r.rdptr);
    WriteOutside(r', q[1..], r.rdptr, r.mem[r.rdptr]);
    assert r'.(mem := r'.mem[r.rdptr := r.mem[r.rdptr]]) == Moved(r);
  }

  lemma MovedProducer(r: Pool, q: seq<Packet>, prod: Producer)
    requires Chain(r, q) && |q| > 0 && ProducerInv(r, prod)
    ensures Moved(r).WellFormed() && ProducerInv(Moved(r), prod)
    ensures q[0].addr == r.rdptr && Moved(r).rdptr == Node(r, q, 1)
  {
    MovedChain(r, q);
    OffAfterAdvance(r, q, r.wrptr);
    forall x | r.InRing(x) && r.Off(r.wrptr) <= r.Off(x)
      ensures Moved(r).Off(x) == r.Off(x) - r.Off(Node(r, q, 1))
    {
      OffAfterAdvance(r, q, x);
    }
    ProducerKeeps(r, Moved(r), prod, r.Off(Node(r, q, 1)));
  }

  lemma MoveKeeps(t: SplitState)
    requires SplitInv(t) && SplitEnabled(t, StoreRdptr)
    ensures SplitInv(SplitStep(t, StoreRdptr))
    ensures |t.core.fifo| > 0 && SplitStep(t, StoreRdptr).core.fifo == t.core.fifo[1..]
    ensures SplitStep(t, StoreRdptr).core.pool.rdptr == Node(t.core.pool, t.core.fifo, 1)
  {
    var s := t.core;
    assert |s.fifo| > 0;
    MovedChain(s.pool, s.fifo);
    MovedProducer(s.pool, s.fifo, s.prod);
    assert Repaired(SplitStep(t, StoreRdptr)).pool == Moved(s.pool);
    hide Chain, ProducerInv;
  }

  // ---------- line 174 ----------

  /** Clearing one word keeps the record exactly when the word is none it depends on, or 0. */
  lemma ClearRecordIff(r: Pool, q: seq<Packet>, i: nat, x: int)
    requires Chain(r, q) && i < |q| && r.InRing(x) && RecordWord(r, q[i], x)
    ensures Chain(Store(r, x, 0), q) <==> r.mem[x] == 0
  {
    var p, r' := q[i], Store(r, x, 0);
    assert RecordAt(r, q, i);
    if r.mem[x] == 0 {
      assert r' == r;
    } else {
      assert !RecordAt(r', q, i) by {
        if DataWord(r, p.addr, |p.data|, x) {
          var k :| 0 <= k < |p.data| && IsDataWord(r, p.addr, k, x);
          assert r.mem[r.Word(p.addr, DATA + k)] == p.data[k];
          assert r'.mem[r'.Word(p.addr, DATA + k)] != p.data[k];
        }
      }
    }
  }

  lemma ClearOther(r: Pool, q: seq<Packet>, x: int)
    requires Chain(r, q) && r.InRing(x) && forall i :: 0 <= i < |q| ==> !RecordWord(r, q[i], x)
    ensures Chain(Store(r, x, 0), q)
  {
    if i :| 0 <= i < |q| && !Outside(r, q[i], x) {
      var p, k := q[i], x - q[i].addr;
      InsideHeader(r, q, i, x);
      assert RecordAt(r, q, i);
      RewriteWord(r, q, i, k, 0, p);
      assert q[i := p] == q;
    } else {
      WriteOutside(r, q, x, 0);
    }
  }

  /** A word of a record that the invariant does not speak of is a header word. */
  lemma InsideHeader(r: Pool, q: seq<Packet>, i: nat, x: int)
    requires Chain(r, q) && i < |q| && r.InRing(x) && !Outside(r, q[i], x) && !RecordWord(r, q[i], x)
    ensures INFO < x - q[i].addr < DATA && x != q[i].addr + LENGTH && (q[i].staged ==> x != q[i].addr + STAGE)
  {
    var p := q[i];
    assert RecordAt(r, q, i);
    var n := r.Off(x) - r.Off(p.addr);
    assert x == r.Word(p.addr, n);
    if n >= DATA { assert IsDataWord(r, p.addr, n - DATA, x); }
  }

  lemma ClearFrameIff(r: Pool, prod: Producer, x: int)
    requires r.WellFormed() && ProducerInv(r, prod) && r.InRing(x)
    ensures Store(r, x, 0).WellFormed()
    ensures ProducerInv(Store(r, x, 0), prod) <==> !(FrameWord(r, prod, x) && r.mem[x] != 0)
  {
    var r' := Store(r, x, 0);
    assert forall y :: r'.Off(y) == r.Off(y);
    if r.mem[x] == 0 {
      assert r' == r;
    } else if !prod.Idle? && !prod.Reserved? {
      HoldsIff(r, prod.frame, x);
      hide Holds;
    }
  }

  lemma HoldsIff(r: Pool, f: seq<int>, x: int)
    requires r.WellFormed() && Room(r, DATA + |f|) && Holds(r, r.wrptr, f) && r.InRing(x) && r.mem[x] != 0
    ensures Store(r, x, 0).WellFormed() && Room(Store(r, x, 0), DATA + |f|)
    ensures Holds(Store(r, x, 0), r.wrptr, f) <==> !DataWord(r, r.wrptr, |f|, x)
  {
    var r' := Store(r, x, 0);
    if k :| 0 <= k < |f| && IsDataWord(r, r.wrptr, k, x) {
      assert r.mem[r.Word(r.wrptr, DATA + k)] == f[k];
      assert r'.mem[r'.Word(r.wrptr, DATA + k)] != f[k];
    } else {
      forall k | 0 <= k < |f|
        ensures r'.mem[r'.Word(r.wrptr, DATA + k)] == f[k]
      {
        assert !IsDataWord(r, r.wrptr, k, x);
      }
    }
  }

  lemma ClearKeepsIff(t: SplitState)
    requires SplitInv(t) && SplitEnabled(t, ClearOld)
    ensures SplitInv(SplitStep(t, ClearOld)) <==> !Hazard(t, ClearOld)
  {
    var s, r, x := t.core, t.core.pool, t.window.prev;
    ClearFrameIff(r, s.prod, x);
    if i :| 0 <= i < |s.fifo| && RecordWord(r, s.fifo[i], x) {
      ClearRecordIff(r, s.fifo, i, x);
    } else {
      ClearOther(r, s.fifo, x);
    }
    hide Chain, ProducerInv, RecordWord, FrameWord;
  }

  /** The words that only consumers read (reference count, filter result, timestamps) are outside
      the ring's invariant; they too are kept exactly when the cleared word is none of a record,
      or 0 already. */
  lemma ClearKeepsWordsIff(t: SplitState)
    requires SplitInv(t) && SplitEnabled(t, ClearOld)
    ensures var r, x, r' := t.core.pool, t.window.prev, SplitStep(t, ClearOld).core.pool;
            (forall i, y :: 0 <= i < |t.core.fifo| && IsWordOf(r, t.core.fifo[i], y) ==> Load(r', y) == Load(r, y))
            <==> !(Load(r, x) != 0 && exists i :: 0 <= i < |t.core.fifo| && IsWordOf(r, t.core.fifo[i], x))
  {
    var r, x, r' := t.core.pool, t.window.prev, SplitStep(t, ClearOld).core.pool;
    if i :| Load(r, x) != 0 && 0 <= i < |t.core.fifo| && IsWordOf(r, t.core.fifo[i], x) {
      assert Load(r', x) == 0;
    }
    hide Inv, IsWordOf;
  }

  // ---------- every step, every run ----------

  /** Every step of every interleaving keeps the ring exactly when it is neither hazard. */
  lemma StepKeepsIff(t: SplitState, b: SplitAction)
    requires SplitInv(t) && SplitEnabled(t, b)
    ensures SplitInv(SplitStep(t, b)) <==> !Hazard(t, b)
  {
    match b
    case Base(a) => if a.Decide? { DecideKeepsIff(t); } else { BaseKeeps(t, a); }
    case StoreRdptr => MoveKeeps(t);
    case StoreFlag => hide Inv;
    case ClearOld => ClearKeepsIff(t);
  }

  ghost predicate IsSplitRun(trace: seq<SplitState>, actions: seq<SplitAction>) {
    && |trace| == |actions| + 1
    && (exists words: seq<int> :: |words| > START + MIN_USAGE && trace[0] == SplitInit(words))
    && forall i :: 0 <= i < |actions| ==>
         SplitEnabled(trace[i], actions[i]) && trace[i + 1] == SplitStep(trace[i], actions[i])
  }

  lemma {:induction false} RunKept(trace: seq<SplitState>, actions: seq<SplitAction>, i: nat)
    requires IsSplitRun(trace, actions) && i < |trace|
    requires forall k :: 0 <= k < i ==> !Hazard(trace[k], actions[k])
    ensures SplitInv(trace[i])
  {
    hide SplitInv, SplitStep, Hazard;
    if i == 0 {
      var words: seq<int> :| |words| > START + MIN_USAGE && trace[0] == SplitInit(words);
      SplitInitInv(words);
    } else {
      RunKept(trace, actions, i - 1);
      StepKeepsIff(trace[i - 1], actions[i - 1]);
    }
  }

  lemma SplitInitInv(words: seq<int>)
    requires |words| > START + MIN_USAGE
    ensures SplitInv(SplitInit(words))
  {
    InitInv(words);
    hide Inv;
  }

  /** A run keeps the ring throughout exactly when no commit wraps on a stale flag and no
      clearing store of mii_free hits a word that is in use again. */
  lemma RunKeptIff(trace: seq<SplitState>, actions: seq<SplitAction>)
    requires IsSplitRun(trace, actions)
    ensures (forall i :: 0 <= i < |trace| ==> SplitInv(trace[i]))
            <==> (forall i :: 0 <= i < |actions| ==> !Hazard(trace[i], actions[i]))
  {
    hide SplitInv, SplitStep, Hazard;
    if forall i :: 0 <= i < |trace| ==> SplitInv(trace[i]) {
      forall i | 0 <= i < |actions|
        ensures !Hazard(trace[i], actions[i])
      {
        assert SplitInv(trace[i]) && SplitInv(trace[i + 1]);
        StepKeepsIff(trace[i], actions[i]);
      }
    }
    if forall i :: 0 <= i < |actions| ==> !Hazard(trace[i], actions[i]) {
      forall i | 0 <= i < |trace|
        ensures SplitInv(trace[i])
      {
        RunKept(trace, actions, i);
      }
    }
  }

  /** Short of a hazard every step, taken apart or not, is a step of the abstract queue. */
  lemma StepRefinesQueue(t: SplitState, b: SplitAction)
    requires SplitInv(t) && SplitEnabled(t, b) && !Hazard(t, b)
    ensures T.QueueStep(t.core.fifo, SplitStep(t, b).core.fifo, t.core.freer)
  {
    match b
    case Base(a) =>
      if !a.Decide? {
        RepairCommutes(t, a);
        T.StepRefinesQueue(Repaired(t), a);
      }
    case StoreRdptr => MoveKeeps(t);
    case _ =>
  }

  // ---------- what the hazards cost ----------

  /** After a wrap on a stale flag the commit goes through and every record is lost: the pool
      looks empty. */
  lemma StaleWrapLosesAll(t: SplitState)
    requires SplitInv(t) && SplitEnabled(t, Base(Decide)) && Hazard(t, Base(Decide))
    ensures var t1 := SplitStep(t, Base(Decide));
            && SplitEnabled(t1, Base(StoreNext))
            && var t2 := SplitStep(t1, Base(StoreNext));
               && SplitEnabled(t2, Base(StoreWrptr))
               && var u := SplitStep(t2, Base(StoreWrptr)).core;
                  && |u.fifo| == |t.core.fifo| + 1 && u.pool.rdptr == u.pool.wrptr
                  && forall q :: Chain(u.pool, q) ==> q == []
  {
    var t2 := SplitStep(SplitStep(t, Base(Decide)), Base(StoreNext));
    var u := SplitStep(t2, Base(StoreWrptr)).core;
    forall q | Chain(u.pool, q)
      ensures q == []
    {
      EmptyIffPointersMeet(u.pool, q);
    }
  }

  lemma {:induction false} FollowKept(r: Pool, q: seq<Packet>, i: nat, j: nat)
    requires Chain(r, q) && j <= i < |q|
    ensures 0 <= q[i].addr < |r.mem| && Follow(Store(r, q[i].addr, 0), j) == q[j].addr != r.wrptr
  {
    assert r.Usable(q[i].addr);
    ChainReachesWrptr(r, q, j);
    if j > 0 {
      FollowKept(r, q, i, j - 1);
      ChainReachesWrptr(r, q, j - 1);
      ApartFromRecord(r, q, j - 1, 0, i, 0);
    }
  }

  /** When the word cleared late is the link of a record, memory represents no queue at all:
      following the links from rdptr ends in the cleared word. */
  lemma LateClearLosesQueue(r: Pool, q: seq<Packet>, i: nat, q': seq<Packet>)
    requires Chain(r, q) && i < |q|
    ensures !Chain(Store(r, q[i].addr, 0), q')
  {
    var r' := Store(r, q[i].addr, 0);
    if Chain(r', q') {
      var j := if |q'| < i then |q'| else i;
      FollowKept(r, q, i, j);
      ChainReachesWrptr(r', q', j);
      ZeroLink(r', q', i);
    }
  }

  lemma ZeroLink(r: Pool, q: seq<Packet>, i: nat)
    requires i < |q| && r.WellFormed() && 0 <= q[i].addr < |r.mem| && r.mem[q[i].addr] == 0
    requires r.Usable(Node(r, q, i + 1))
    ensures !RecordAt(r, q, i)
  {}

  // ---------- both hazards are reached ----------

  ghost predicate Reachable(t: SplitState) {
    exists trace, actions :: IsSplitRun(trace, actions) && trace[|actions|] == t
  }

  lemma ReachInit(words: seq<int>)
    requires |words| > START + MIN_USAGE
    ensures Reachable(SplitInit(words))
  {
    var trace, actions: seq<SplitAction> := [SplitInit(words)], [];
    assert IsSplitRun(trace, actions);
  }

  lemma ReachStep(t: SplitState, b: SplitAction)
    requires Reachable(t) && SplitEnabled(t, b)
    ensures Reachable(SplitStep(t, b))
  {
    var trace, actions :| IsSplitRun(trace, actions) && trace[|actions|] == t;
    var trace', actions' := trace + [SplitStep(t, b)], actions + [b];
    assert IsSplitRun(trace', actions');
  }

  /** A reachable state in which the ring is intact. */
  ghost predicate Sound(t: SplitState) { Reachable(t) && SplitInv(t) }

  lemma SoundStep(t: SplitState, b: SplitAction)
    requires Sound(t) && SplitEnabled(t, b) && !Hazard(t, b)
    ensures Sound(SplitStep(t, b))
  {
    ReachStep(t, b);
    StepKeepsIff(t, b);
  }

  /** Only the producer has moved, and it has committed nothing. */
  predicate SameRing(t: SplitState, u: SplitState) {
    && u.window == t.window && u.core.freer == t.core.freer && u.core.fifo == t.core.fifo
    && u.core.pool.rdptr == t.core.pool.rdptr && u.core.pool.wrptr == t.core.pool.wrptr
    && u.core.pool.atStart == t.core.pool.atStart && |u.core.pool.mem| == |t.core.pool.mem|
  }

  /** The producer can store a frame up to its n-th word when they fit before rdptr. */
  lemma {:induction false} ReachFill(t: SplitState, n: nat) returns (u: SplitState)
    requires Sound(t) && t.core.prod.Filling? && |t.core.prod.frame| <= n && Room(t.core.pool, DATA + n)
    ensures Sound(u) && SameRing(t, u) && u.core.prod.Filling? && |u.core.prod.frame| == n
    decreases n - |t.core.prod.frame|
  {
    u := t;
    if |t.core.prod.frame| < n {
      u := FillWord(t);
      u := ReachFill(u, n);
    }
  }

  lemma FillWord(t: SplitState) returns (u: SplitState)
    requires Sound(t) && t.core.prod.Filling? && Room(t.core.pool, DATA + |t.core.prod.frame| + 1)
    ensures Sound(u) && SameRing(t, u) && u.core.prod.Filling? && |u.core.prod.frame| == |t.core.prod.frame| + 1
  {
    u := PollPasses(t);
    hide Inv, Reachable, SplitInv;
    SoundStep(u, Base(StoreWord(0)));
    u := SplitStep(u, Base(StoreWord(0)));
  }

  lemma PollPasses(t: SplitState) returns (u: SplitState)
    requires Sound(t) && t.core.prod.Filling? && Room(t.core.pool, DATA + |t.core.prod.frame| + 1)
    ensures Sound(u) && SameRing(t, u) && u.core.prod == Clear(t.core.prod.dptr, t.core.prod.frame)
  {
    OffOfPointer(Repaired(t).pool, t.core.prod.dptr, t.core.prod.frame);
    hide Inv, Reachable, SplitInv;
    SoundStep(t, Base(PollWord));
    u := SplitStep(t, Base(PollWord));
  }

  lemma ReachFrame(t: SplitState, n: nat) returns (u: SplitState)
    requires Sound(t) && t.core.prod.Idle? && !Refused(t.core.pool) && n >= 6 && Room(t.core.pool, DATA + n)
    ensures Sound(u) && SameRing(t, u) && u.core.prod.Filling? && |u.core.prod.frame| == n
  {
    hide Inv, Reachable, StoreAll;
    SoundStep(t, Base(Reserve));
    u := SplitStep(t, Base(Reserve));
    SoundStep(u, Base(StartFrame([0, 0, 0, 0, 0, 0])));
    u := SplitStep(u, Base(StartFrame([0, 0, 0, 0, 0, 0])));
    u := ReachFill(u, n);
  }

  /** The end of a frame up to the decision of mii_commit. */
  lemma ReachTail(t: SplitState) returns (u: SplitState)
    requires Sound(t) && t.core.prod.Filling? && t.core.prod.dptr != t.core.pool.rdptr
    ensures Sound(u) && SameRing(t, u) && u.core.prod.Tailed? && u.core.prod.dptr == t.core.prod.dptr
    ensures u.core.prod.frame == t.core.prod.frame
  {
    hide Inv, Reachable;
    SoundStep(t, Base(EndFrame(0)));
    u := SplitStep(t, Base(EndFrame(0)));
    SoundStep(u, Base(StoreTail(0)));
    u := SplitStep(u, Base(StoreTail(0)));
  }

  /** The committed record follows those of q, at the old wrptr. */
  predicate Grown(q: seq<Packet>, q': seq<Packet>, a: int) {
    |q'| == |q| + 1 && q'[..|q|] == q && q'[|q|].addr == a && !q'[|q|].freed
  }

  /** Where the record of n data words at wrptr would end. */
  function EndOf(r: Pool, n: nat): int {
    var d := r.Word(r.wrptr, DATA + n);
    if NearEnd(r, d) then START else d
  }

  lemma ReachCommit(t: SplitState, n: nat) returns (u: SplitState)
    requires Sound(t) && !t.window.FlagDue? && t.core.prod.Idle? && !Refused(t.core.pool)
    requires n >= 6 && Room(t.core.pool, DATA + n + 1)
    requires !(NearEnd(t.core.pool, t.core.pool.Word(t.core.pool.wrptr, DATA + n)) && t.core.pool.atStart)
    ensures Sound(u) && u.window == t.window && u.core.freer == t.core.freer && u.core.prod.Idle?
    ensures Grown(t.core.fifo, u.core.fifo, t.core.pool.wrptr)
    ensures u.core.pool.rdptr == t.core.pool.rdptr && u.core.pool.atStart == t.core.pool.atStart
    ensures |u.core.pool.mem| == |t.core.pool.mem| && u.core.pool.wrptr == EndOf(t.core.pool, n)
  {
    u := ReachFrame(t, n);
    OffOfPointer(Repaired(u).pool, u.core.prod.dptr, u.core.prod.frame);
    u := ReachTail(u);
    u := ReachPublish(u, t.core.pool, n);
  }

  lemma ReachPublish(t: SplitState, r: Pool, n: nat) returns (u: SplitState)
    requires Sound(t) && !t.window.FlagDue? && t.core.prod.Tailed? && |t.core.prod.frame| == n
    requires t.core.pool.wrptr == r.wrptr && |t.core.pool.mem| == |r.mem|
    requires !(NearEnd(t.core.pool, t.core.pool.Word(t.core.pool.wrptr, DATA + n)) && t.core.pool.atStart)
    ensures Sound(u) && u.window == t.window && u.core.freer == t.core.freer && u.core.prod.Idle?
    ensures Grown(t.core.fifo, u.core.fifo, t.core.pool.wrptr)
    ensures u.core.pool.rdptr == t.core.pool.rdptr && u.core.pool.atStart == t.core.pool.atStart
    ensures |u.core.pool.mem| == |t.core.pool.mem| && u.core.pool.wrptr == EndOf(r, n)
  {
    assert t.core.prod.dptr == t.core.pool.Word(t.core.pool.wrptr, DATA + n);
    u := ReachDecide(t);
    u := ReachPublished(u);
  }

  lemma ReachDecide(t: SplitState) returns (u: SplitState)
    requires Sound(t) && !t.window.FlagDue? && t.core.prod.Tailed?
    requires !(NearEnd(t.core.pool, t.core.prod.dptr) && t.core.pool.atStart)
    ensures Sound(u) && SameRing(t, u)
    ensures u.core.prod == Linking(if NearEnd(t.core.pool, t.core.prod.dptr) then START else t.core.prod.dptr,
                                   t.core.prod.frame, t.core.prod.length)
  {
    hide Inv, Reachable;
    SoundStep(t, Base(Decide));
    u := SplitStep(t, Base(Decide));
  }

  lemma ReachPublished(t: SplitState) returns (u: SplitState)
    requires Sound(t) && t.core.prod.Linking?
    ensures Sound(u) && u.window == t.window && u.core.freer == t.core.freer && u.core.prod.Idle?
    ensures Grown(t.core.fifo, u.core.fifo, t.core.pool.wrptr)
    ensures u.core.pool.rdptr == t.core.pool.rdptr && u.core.pool.atStart == t.core.pool.atStart
    ensures |u.core.pool.mem| == |t.core.pool.mem| && u.core.pool.wrptr == t.core.prod.endp
  {
    hide Inv, Reachable;
    SoundStep(t, Base(StoreNext));
    u := SplitStep(t, Base(StoreNext));
    SoundStep(u, Base(StoreWrptr));
    u := SplitStep(u, Base(StoreWrptr));
  }

  /** mii_free of the oldest record, up to and including line 167. */
  lemma ReachMove(t: SplitState) returns (u: SplitState)
    requires Sound(t) && t.window.Shut? && t.core.freer.NotFreeing? && |t.core.fifo| > 0 && !t.core.fifo[0].freed
    ensures Sound(u) && u.window == FlagDue(t.core.pool.rdptr) && u.core.prod == t.core.prod
    ensures u.core.fifo == t.core.fifo[1..]
    ensures u.core.pool.rdptr == Node(t.core.pool, t.core.fifo, 1) && u.core.pool.wrptr == t.core.pool.wrptr
    ensures u.core.pool.atStart == t.core.pool.atStart && |u.core.pool.mem| == |t.core.pool.mem|
  {
    assert t.core.fifo[0].addr == t.core.pool.rdptr;
    assert IsLive(t.core.fifo, t.core.pool.rdptr);
    hide Inv, Reachable, IsLive;
    SoundStep(t, Base(CallFree(t.core.pool.rdptr)));
    u := SplitStep(t, Base(CallFree(t.core.pool.rdptr)));
    MoveKeeps(u);
    SoundStep(u, StoreRdptr);
    u := SplitStep(u, StoreRdptr);
  }

  /** Lines 168-171. */
  lemma ReachFlag(t: SplitState) returns (u: SplitState)
    requires Sound(t) && t.window.FlagDue?
    ensures Sound(u) && u.window == ClearDue(t.window.prev) && u.core.prod == t.core.prod && u.core.fifo == t.core.fifo
    ensures u.core.pool.rdptr == t.core.pool.rdptr && u.core.pool.wrptr == t.core.pool.wrptr
    ensures u.core.pool.atStart == (t.core.pool.rdptr == START) && |u.core.pool.mem| == |t.core.pool.mem|
  {
    hide Inv, Reachable;
    SoundStep(t, StoreFlag);
    u := SplitStep(t, StoreFlag);
  }

  /** The rest of mii_free when no record is left and the producer is idle. */
  lemma ReachEmptied(t: SplitState) returns (u: SplitState)
    requires Sound(t) && t.window.ClearDue? && t.core.fifo == [] && t.core.prod.Idle?
    ensures Sound(u) && u.window.Shut? && u.core.freer.NotFreeing? && u.core.prod.Idle? && u.core.fifo == []
    ensures u.core.pool.rdptr == t.core.pool.rdptr && u.core.pool.wrptr == t.core.pool.wrptr
    ensures u.core.pool.atStart == t.core.pool.atStart && |u.core.pool.mem| == |t.core.pool.mem|
  {
    assert t.core.pool.rdptr == t.core.pool.wrptr;
    hide Inv, Reachable;
    SoundStep(t, ClearOld);
    u := SplitStep(t, ClearOld);
    SoundStep(u, Base(FreeWrptr));
    u := SplitStep(u, Base(FreeWrptr));
  }

  /** In a ring of 44 words: a record of 22 words at the start is committed and freed up to and
      including line 171. */
  lemma ReachFreedFirst() returns (t: SplitState)
    ensures Sound(t) && t.window == ClearDue(START) && t.core.prod.Idle? && t.core.fifo == []
    ensures |t.core.pool.mem| == 51 && t.core.pool.rdptr == t.core.pool.wrptr == START + 22 && !t.core.pool.atStart
  {
    var words := seq(51, _ => 0);
    ReachInit(words);
    SplitInitInv(words);
    hide SplitInv, Reachable;
    t := ReachCommit(SplitInit(words), 10);
    t := ReachMove(t);
    t := ReachFlag(t);
  }

  /** A run in which mii_free finishes with the first record, a second one is committed behind
      it, and its release moves rdptr to the start while the frame being filled grows past the
      last place at which a record may start. */
  lemma StaleWrapRun() returns (t: SplitState)
    ensures Reachable(t) && SplitInv(t) && SplitEnabled(t, Base(Decide)) && Hazard(t, Base(Decide))
  {
    t := ReachFreedFirst();
    hide SplitInv, Reachable;
    t := ReachEmptied(t);
    t := ReachCommit(t, 6);
    t := ReachFrame(t, 10);
    t := ReachMove(t);
    t := FillWord(t);
    t := TailAtEnd(t);
  }

  lemma TailAtEnd(t: SplitState) returns (u: SplitState)
    requires Sound(t) && t.core.prod.Filling? && |t.core.prod.frame| == 11 && |t.core.pool.mem| == 51
    requires t.core.pool.rdptr == t.core.pool.wrptr == START && t.window == FlagDue(START + 22)
    ensures Sound(u) && SplitEnabled(u, Base(Decide)) && Hazard(u, Base(Decide))
  {
    assert t.core.prod.dptr == START + 23;
    hide SplitInv, Reachable;
    u := ReachTail(t);
  }

  /** A run in which two more records are committed before mii_free clears the first link, the
      second of them at the start again: its link is the word that is cleared. */
  lemma LateClearRun() returns (t: SplitState)
    ensures Reachable(t) && SplitInv(t) && SplitEnabled(t, ClearOld) && Hazard(t, ClearOld)
    ensures |t.core.fifo| == 2 && !t.core.fifo[1].freed
    ensures forall q :: !Chain(SplitStep(t, ClearOld).core.pool, q)
  {
    t := ReachFreedFirst();
    hide SplitInv, Reachable;
    t := ReachCommit(t, 6);
    t := ReachCommit(t, 6);
    LinkInUse(t, 1);
    forall q
      ensures !Chain(SplitStep(t, ClearOld).core.pool, q)
    {
      LostQueue(t, 1, q);
    }
  }

  lemma LinkInUse(t: SplitState, i: nat)
    requires SplitInv(t) && t.window.ClearDue? && i < |t.core.fifo| && t.core.fifo[i].addr == t.window.prev
    ensures Hazard(t, ClearOld)
  {
    assert RecordAt(t.core.pool, t.core.fifo, i);
    assert RecordWord(t.core.pool, t.core.fifo[i], t.window.prev);
  }

  lemma LostQueue(t: SplitState, i: nat, q: seq<Packet>)
    requires SplitInv(t) && t.window.ClearDue? && i < |t.core.fifo| && t.core.fifo[i].addr == t.window.prev
    ensures !Chain(SplitStep(t, ClearOld).core.pool, q)
  {
    LateClearLosesQueue(t.core.pool, t.core.fifo, i, q);
  }
}
