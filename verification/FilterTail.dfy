/** The tail word.  mii_rx_pins stores the last, partial word of a frame where the committed end
    pointer of the record will be, outside the record, and ethernet_filter reads it from there
    for the CRC.  Unless the commit wraps, that is the link word of the next record. */
module FilterTail {
  import opened RingPool
  import opened PoolSteps
  import T = PoolTheorems
  import Stream

  /** The word after the last data word of p. */
  function TailOf(r: Pool, p: Packet): int { r.Word(p.addr, p.Extent()) }

  /** The tail of record i has not been overwritten: it is not the link word of a later record,
      nor has the next record's link been stored. */
  predicate HasTail(s: State, i: nat)
    requires i < |s.fifo|
  {
    TailOf(s.pool, s.fifo[i]) != Node(s.pool, s.fifo, i + 1) || (i + 1 == |s.fifo| && !s.prod.Publishing?)
  }

  /** The frame being committed has its tail at x. */
  predicate OwnTail(s: State, x: int) {
    (s.prod.Tailed? || s.prod.Linking? || s.prod.Publishing?) && x == s.pool.Word(s.pool.wrptr, DATA + |s.prod.frame|)
  }

  /** The tail of a frame, committed or being committed, is in place at x. */
  predicate TailAt(s: State, x: int) {
    OwnTail(s, x) || exists i :: 0 <= i < |s.fifo| && HasTail(s, i) && x == TailOf(s.pool, s.fifo[i])
  }

  /** The action neither abandons the frame that has its tail at x nor reclaims its record. */
  predicate KeepsRecord(s: State, a: Action, x: int) {
    && (a.Decide? && s.prod.Tailed? && NearEnd(s.pool, s.prod.dptr) && s.pool.atStart ==> !OwnTail(s, x))
    && (a.FreeHead? && s.freer.AtHead? && s.freer.h == s.pool.rdptr && |s.fifo| > 0 ==> x != TailOf(s.pool, s.fifo[0]))
  }

  /** The action stores the link of the next record at x. */
  predicate LinksOver(s: State, a: Action, x: int) { a.StoreNext? && x == s.pool.wrptr }

  predicate Spares(s: State, a: Action, x: int) { KeepsRecord(s, a, x) && !LinksOver(s, a, x) }

  lemma TailWord(s: State, w: int)
    requires Inv(s) && Enabled(s, StoreTail(w)) && s.prod.dptr != s.pool.rdptr
    ensures TailAt(Step(s, StoreTail(w)), s.prod.dptr) && Load(Step(s, StoreTail(w)).pool, s.prod.dptr) == w
  {
    OffOfPointer(s.pool, s.prod.dptr, s.prod.frame);
    OffOfWord(s.pool, s.pool.wrptr, DATA + |s.prod.frame|);
  }

  /** Where the tails lie in ring order. */
  lemma TailPlace(s: State, x: int)
    requires Inv(s) && TailAt(s, x)
    ensures s.pool.InRing(x)
    ensures OwnTail(s, x) ==> s.pool.Off(x) == s.pool.Off(s.pool.wrptr) + DATA + |s.prod.frame|
    ensures !OwnTail(s, x) ==> s.pool.Off(x) <= s.pool.Off(s.pool.wrptr)
    ensures forall i :: 0 <= i < |s.fifo| ==> Outside(s.pool, s.fifo[i], x)
  {
    hide HasTail, Outside;
    if OwnTail(s, x) {
      OwnTailPlace(s, x);
    } else {
      var i :| 0 <= i < |s.fifo| && HasTail(s, i) && x == TailOf(s.pool, s.fifo[i]);
      hide Inv, OwnTail, TailAt, TailOf;
      RecordTailPlace(s, i);
    }
  }

  lemma OwnTailPlace(s: State, x: int)
    requires Inv(s) && OwnTail(s, x)
    ensures s.pool.InRing(x) && s.pool.Off(x) == s.pool.Off(s.pool.wrptr) + DATA + |s.prod.frame|
    ensures forall i :: 0 <= i < |s.fifo| ==> Outside(s.pool, s.fifo[i], x)
  {
    OffOfWord(s.pool, s.pool.wrptr, DATA + |s.prod.frame|);
  }

  lemma RecordTailPlace(s: State, i: nat)
    requires Inv(s) && i < |s.fifo| && HasTail(s, i)
    ensures var x := TailOf(s.pool, s.fifo[i]);
            && s.pool.InRing(x) && s.pool.Off(x) <= s.pool.Off(s.pool.wrptr)
            && forall j :: 0 <= j < |s.fifo| ==> Outside(s.pool, s.fifo[j], x)
  {
    var r, q := s.pool, s.fifo;
    assert Ordered(r, q);
    hide Inv, ProducerInv, FreerInv;
    OffOfWord(r, q[i].addr, q[i].Extent());
    if i + 1 < |q| { NextApart(r, q, i, TailOf(r, q[i])); }
  }

  lemma NextApart(r: Pool, q: seq<Packet>, i: nat, x: int)
    requires Ordered(r, q) && i + 1 < |q| && x != q[i + 1].addr
    requires r.InRing(x) && r.Off(x) == r.Off(q[i].addr) + q[i].Extent()
    ensures r.Off(x) < r.Off(q[i + 1].addr)
    ensures forall j :: 0 <= j < |q| ==> Outside(r, q[j], x)
  {
    forall j | 0 <= j < |q|
      ensures Outside(r, q[j], x)
    {
      if j > i + 1 { assert r.Off(q[i + 1].addr) + q[i + 1].Extent() <= r.Off(q[j].addr); }
    }
  }

  lemma OutsideHeader(r: Pool, q: seq<Packet>, i: nat, k: int, x: int)
    requires Ordered(r, q) && i < |q| && 0 <= k < DATA && Outside(r, q[i], x)
    ensures x != q[i].addr + k
  {
    assert r.Off(q[i].addr + k) == r.Off(q[i].addr) + k;
  }

  lemma {:induction false} StartSpares(r: Pool, q: seq<Packet>, ws: seq<int>, n: nat, x: int)
    requires Chain(r, q) && |ws| == 6 && n <= 6 && Room(r, MIN_USAGE)
    requires r.InRing(x) && r.Off(x) <= r.Off(r.wrptr)
    ensures Load(StoreAll(r, r.wrptr + DATA, ws[..n]), x) == Load(r, x)
  {
    assert r.Usable(r.wrptr);
    if n > 0 {
      hide Chain;
      StartSpares(r, q, ws, n - 1, x);
      assert ws[..n][..n - 1] == ws[..n - 1];
      assert r.Off(r.wrptr + DATA + n - 1) == r.Off(r.wrptr) + DATA + n - 1;
    }
  }

  /** The stores of mii_free and of the header writers go to words of committed records. */
  lemma TargetInRecord(s: State, a: Action) returns (i: nat, k: int)
    requires Inv(s) && Enabled(s, a) && (a.FreeHead? || a.SetStage? || a.SetHeader?)
    ensures i < |s.fifo| && 0 <= k < DATA && Target(s, a) == s.fifo[i].addr + k
  {
    if a.FreeHead? {
      i, k := if s.freer.h == s.pool.rdptr then 0 else LiveIndex(s.fifo, s.freer.h), 0;
    } else {
      i, k := a.index, if a.SetStage? then STAGE else a.offset;
    }
  }

  /** The stores of the producer go to words after wrptr, those to its own record's words before
      its tail. */
  lemma TargetOfProducer(s: State, a: Action, x: int)
    requires Inv(s) && Enabled(s, a) && TailAt(s, x) && Spares(s, a, x) && Target(s, a) != 0
    requires !(a.StartFrame? || a.FreeHead? || a.SetStage? || a.SetHeader?)
    requires a.StoreTail? ==> s.prod.dptr != s.pool.rdptr
    ensures x != Target(s, a)
  {
    TailPlace(s, x);
    ProducerTarget(s, a);
    hide TailAt;
    if a.StoreWord? || a.StoreTail? {
      PointerPlace(s);
    } else {
      HeaderPlace(s, a);
    }
  }

  lemma PointerPlace(s: State)
    requires Inv(s) && (s.prod.Clear? || (s.prod.Closing? && s.prod.dptr != s.pool.rdptr))
    ensures s.pool.Off(s.prod.dptr) == s.pool.Off(s.pool.wrptr) + DATA + |s.prod.frame|
  {
    OffOfPointer(s.pool, s.prod.dptr, s.prod.frame);
    OffOfWord(s.pool, s.pool.wrptr, DATA + |s.prod.frame|);
  }

  lemma HeaderPlace(s: State, a: Action)
    requires Inv(s) && Enabled(s, a) && (a.Reserve? || a.SetOwn? || a.EndFrame? || a.Decide? || a.StoreNext?)
    requires Target(s, a) != 0
    ensures s.pool.Off(Target(s, a)) == s.pool.Off(s.pool.wrptr) + (Target(s, a) - s.pool.wrptr)
    ensures 0 <= Target(s, a) - s.pool.wrptr < DATA
  {
    assert s.pool.Usable(s.pool.wrptr);
    ProducerTarget(s, a);
    hide ProducerInv, FreerInv, Ordered;
  }

  lemma StartFrameSpares(s: State, a: Action, x: int)
    requires Inv(s) && Enabled(s, a) && a.StartFrame? && TailAt(s, x)
    ensures Load(Step(s, a).pool, x) == Load(s.pool, x)
  {
    hide *;
    StartReady(s, a);
    TailPlace(s, x);
    SixSpare(s.pool, s.fifo, a.words, x);
  }

  lemma SixSpare(r: Pool, q: seq<Packet>, ws: seq<int>, x: int)
    requires Chain(r, q) && |ws| == 6 && Room(r, MIN_USAGE) && r.InRing(x) && r.Off(x) <= r.Off(r.wrptr)
    ensures Load(StoreAll(r, r.wrptr + DATA, ws), x) == Load(r, x)
  {
    StartSpares(r, q, ws, 6, x);
    assert ws[..6] == ws;
  }

  lemma StartReady(s: State, a: Action)
    requires Inv(s) && Enabled(s, a) && a.StartFrame?
    ensures Chain(s.pool, s.fifo) && Room(s.pool, MIN_USAGE) && |a.words| == 6 && forall x :: !OwnTail(s, x)
    ensures Step(s, a).pool == StoreAll(s.pool, s.pool.wrptr + DATA, a.words)
  {
    hide Chain, StoreAll;
  }

  lemma RecordStoreSpares(s: State, a: Action, x: int)
    requires Inv(s) && Enabled(s, a) && (a.FreeHead? || a.SetStage? || a.SetHeader?) && TailAt(s, x)
    ensures x != Target(s, a)
  {
    TailPlace(s, x);
    var i, k := TargetInRecord(s, a);
    OutsideHeader(s.pool, s.fifo, i, k, x);
  }

  lemma DroppedTail(s: State, a: Action)
    requires Enabled(s, a) && a.StoreTail? && s.prod.dptr == s.pool.rdptr
    ensures Step(s, a).pool == s.pool
  {}

  /** No other action changes the tail. */
  lemma TailKept(s: State, a: Action, x: int)
    requires Inv(s) && Enabled(s, a) && TailAt(s, x) && Spares(s, a, x)
    ensures Load(Step(s, a).pool, x) == Load(s.pool, x)
  {
    TailPlace(s, x);
    hide Inv, Step, TailAt, OwnTail, Spares, Target, Load, Outside;
    if a.StartFrame? {
      StartFrameSpares(s, a, x);
    } else if a.StoreTail? && (s.prod.Closing? ==> s.prod.dptr == s.pool.rdptr) {
      DroppedTail(s, a);
    } else {
      if a.FreeHead? || a.SetStage? || a.SetHeader? {
        RecordStoreSpares(s, a, x);
      } else if Target(s, a) != 0 {
        TargetOfProducer(s, a, x);
      }
      TargetOnly(s, a, x);
    }
  }

  lemma OwnTailStays(s: State, a: Action, x: int)
    requires Enabled(s, a) && OwnTail(s, x) && Spares(s, a, x)
    ensures TailAt(Step(s, a), x)
  {
    var s' := Step(s, a);
    if a.StoreWrptr? {
      assert s'.fifo[|s.fifo|].Extent() == DATA + |s.prod.frame|;
      assert HasTail(s', |s.fifo|) && x == TailOf(s'.pool, s'.fifo[|s.fifo|]);
    } else {
      assert OwnTail(s', x);
    }
  }

  /** Where record i is after the action. */
  function IndexAfter(s: State, a: Action, i: nat): int {
    if a.FreeHead? && s.freer.AtHead? && s.freer.h == s.pool.rdptr then i - 1 else i
  }

  lemma RecordStays(s: State, a: Action, i: nat)
    requires Inv(s) && Enabled(s, a) && i < |s.fifo| && IndexAfter(s, a, i) >= 0
    ensures IndexAfter(s, a, i) < |Step(s, a).fifo|
    ensures Step(s, a).fifo[IndexAfter(s, a, i)].addr == s.fifo[i].addr
    ensures Step(s, a).fifo[IndexAfter(s, a, i)].data == s.fifo[i].data
    ensures Step(s, a).fifo[IndexAfter(s, a, i)].length == s.fifo[i].length
    ensures Node(Step(s, a).pool, Step(s, a).fifo, IndexAfter(s, a, i) + 1) == Node(s.pool, s.fifo, i + 1)
    ensures |Step(s, a).pool.mem| == |s.pool.mem|
  {
    hide Chain, ProducerInv;
  }

  lemma HasTailStays(s: State, a: Action, i: nat)
    requires Inv(s) && Enabled(s, a) && i < |s.fifo| && HasTail(s, i) && Spares(s, a, TailOf(s.pool, s.fifo[i]))
    ensures IndexAfter(s, a, i) >= 0
    ensures IndexAfter(s, a, i) < |Step(s, a).fifo| && HasTail(Step(s, a), IndexAfter(s, a, i))
    ensures TailOf(Step(s, a).pool, Step(s, a).fifo[IndexAfter(s, a, i)]) == TailOf(s.pool, s.fifo[i])
  {
    RecordStays(s, a, i);
    hide Inv;
  }

  /** The tail stays a tail. */
  lemma TailStays(s: State, a: Action, x: int)
    requires Inv(s) && Enabled(s, a) && TailAt(s, x) && Spares(s, a, x)
    ensures TailAt(Step(s, a), x)
  {
    hide Inv, Step, OwnTail, Spares, HasTail, TailOf;
    if OwnTail(s, x) {
      OwnTailStays(s, a, x);
    } else {
      var i :| 0 <= i < |s.fifo| && HasTail(s, i) && x == TailOf(s.pool, s.fifo[i]);
      HasTailStays(s, a, i);
    }
  }

  // ---------- what the filter reads ----------

  /** The length word counts the frame without its last four bytes, as mii_rx_pins stores it. */
  predicate Measures(p: Packet) { 4 * (|p.data| - 1) <= p.length < 4 * |p.data| }

  predicate AllMeasured(s: State) { forall i :: 0 <= i < |s.fifo| ==> Measures(s.fifo[i]) }

  lemma MeasuredStays(s: State, a: Action)
    requires Inv(s) && Enabled(s, a) && AllMeasured(s)
    ensures AllMeasured(Step(s, a))
  {
    hide Chain;
  }

  /** The word ethernet_filter takes for the tail of committed frame i: data word
      (length & ~3) / 4 + 1. */
  function FilterWord(s: State, i: nat): int
    requires i < |s.fifo|
  {
    var p := s.fifo[i];
    if s.pool.WellFormed() then Stream.GetData(s.pool, p.addr + HEADER, (p.length - p.length % 4) / 4 + 1) else 0
  }

  /** It is the word after the record. */
  lemma FilterReadsTail(s: State, i: nat)
    requires Inv(s) && AllMeasured(s) && i < |s.fifo|
    ensures FilterWord(s, i) == Load(s.pool, TailOf(s.pool, s.fifo[i]))
  {
    var p := s.fifo[i];
    assert RecordAt(s.pool, s.fifo, i);
    assert (p.length - p.length % 4) / 4 + 1 == |p.data|;
    OffOfWord(s.pool, p.addr, p.Extent());
  }

  /** The link that has replaced the tail of record i. */
  function LinkAfter(s: State, i: nat): int
    requires i < |s.fifo| && !HasTail(s, i)
  {
    if i + 1 < |s.fifo| then Node(s.pool, s.fifo, i + 2) else s.prod.endp
  }

  /** How it stands in memory: negated when the next record is freed. */
  function SignedLink(s: State, i: nat, e: int): int {
    if i + 1 < |s.fifo| && s.fifo[i + 1].freed then -e else e
  }

  /** When the tail is gone the filter reads the address of the record after the next. */
  lemma FilterReadsLink(s: State, i: nat)
    requires Inv(s) && AllMeasured(s) && i < |s.fifo| && !HasTail(s, i)
    ensures FilterWord(s, i) == SignedLink(s, i, LinkAfter(s, i)) && LinkAfter(s, i) > 0
  {
    FilterReadsTail(s, i);
    if i + 1 < |s.fifo| { LinkOf(s.pool, s.fifo, i + 1); }
  }

  // ---------- every interleaving ----------

  /** A run, from any state, that keeps the record with its tail at x. */
  ghost predicate KeepingRun(trace: seq<State>, actions: seq<Action>, x: int) {
    && |trace| == |actions| + 1
    && forall i :: 0 <= i < |actions| ==>
         Enabled(trace[i], actions[i]) && trace[i + 1] == Step(trace[i], actions[i]) && KeepsRecord(trace[i], actions[i], x)
  }

  /** The tail word w is in place at x. */
  ghost predicate TailIs(s: State, x: int, w: int) {
    Inv(s) && AllMeasured(s) && TailAt(s, x) && Load(s.pool, x) == w
  }

  /** The end of a frame puts it there, where the record will end. */
  lemma TailStored(s: State, w: int)
    requires Inv(s) && AllMeasured(s) && Enabled(s, StoreTail(w)) && s.prod.dptr != s.pool.rdptr
    ensures TailIs(Step(s, StoreTail(w)), s.prod.dptr, w)
    ensures s.prod.dptr == s.pool.Word(s.pool.wrptr, DATA + |s.prod.frame|)
  {
    assert s.prod.dptr == s.pool.Word(s.pool.wrptr, DATA + |s.prod.frame|);
    hide Inv, AllMeasured, TailAt, Load, Step;
    TailWord(s, w);
    StepInv(s, StoreTail(w));
    MeasuredStays(s, StoreTail(w));
  }

  lemma TailStep(s: State, a: Action, x: int, w: int)
    requires TailIs(s, x, w) && Enabled(s, a) && Spares(s, a, x)
    ensures TailIs(Step(s, a), x, w)
  {
    hide Inv, Enabled, Step, TailAt, Spares, Load, AllMeasured;
    StepInv(s, a);
    MeasuredStays(s, a);
    TailKept(s, a, x);
    TailStays(s, a, x);
  }

  /** At x stands the link e of a later record, where the tail of a committed one was. */
  ghost predicate LinkAt(s: State, x: int, e: int) {
    && Inv(s) && AllMeasured(s)
    && exists i :: 0 <= i < |s.fifo| && LinkIs(s, i, x, e)
  }

  predicate LinkIs(s: State, i: nat, x: int, e: int) {
    i < |s.fifo| && !HasTail(s, i) && TailOf(s.pool, s.fifo[i]) == x && LinkAfter(s, i) == e
  }

  /** Behind a commit that wraps the tail lies where no record may start, so no link is ever
      stored over it. */
  lemma WrappedTailIsSpared(s: State, x: int)
    requires Inv(s) && NearEnd(s.pool, x)
    ensures x != s.pool.wrptr
  {
    assert s.pool.Usable(s.pool.wrptr);
  }

  /** A tail at wrptr is that of the newest record. */
  lemma TailAtWrptr(s: State)
    requires Inv(s) && s.prod.Linking? && TailAt(s, s.pool.wrptr)
    ensures |s.fifo| > 0 && TailOf(s.pool, s.fifo[|s.fifo| - 1]) == s.pool.wrptr
  {
    TailPlace(s, s.pool.wrptr);
    hide Inv, HasTail, TailOf, Outside;
    assert !OwnTail(s, s.pool.wrptr);
    var i :| 0 <= i < |s.fifo| && HasTail(s, i) && s.pool.wrptr == TailOf(s.pool, s.fifo[i]);
    if i + 1 < |s.fifo| { TailBeforeNext(s, i); }
  }

  lemma TailBeforeNext(s: State, i: nat)
    requires Inv(s) && i + 1 < |s.fifo|
    ensures TailOf(s.pool, s.fifo[i]) != s.pool.wrptr
  {
    var r, q := s.pool, s.fifo;
    assert Ordered(r, q);
    hide Inv, ProducerInv, FreerInv, Chain;
    OffOfWord(r, q[i].addr, q[i].Extent());
    assert r.Off(q[i].addr) + q[i].Extent() <= r.Off(q[i + 1].addr);
    assert r.Off(q[i + 1].addr) + q[i + 1].Extent() <= r.Off(r.wrptr);
  }

  /** The next record's link takes the place of the tail. */
  lemma LinkReplacesTail(s: State, x: int, w: int)
    requires TailIs(s, x, w) && Enabled(s, StoreNext) && x == s.pool.wrptr
    ensures LinkAt(Step(s, StoreNext), x, s.prod.endp) && !NearEnd(s.pool, x)
  {
    TailAtWrptr(s);
    StepInv(s, StoreNext);
    MeasuredStays(s, StoreNext);
    if NearEnd(s.pool, x) { WrappedTailIsSpared(s, x); }
    NextShape(s);
    hide Inv, AllMeasured, TailAt, Step, NearEnd;
    LinkInPlace(s, Step(s, StoreNext));
  }

  lemma LinkInPlace(s: State, s': State)
    requires |s.fifo| > 0 && TailOf(s.pool, s.fifo[|s.fifo| - 1]) == s.pool.wrptr && s.prod.Linking?
    requires s'.fifo == s.fifo && s'.prod.Publishing? && s'.prod.endp == s.prod.endp
    requires s'.pool.wrptr == s.pool.wrptr && |s'.pool.mem| == |s.pool.mem|
    ensures LinkIs(s', |s.fifo| - 1, s.pool.wrptr, s.prod.endp)
  {}

  lemma NextShape(s: State)
    requires Enabled(s, StoreNext)
    ensures var s' := Step(s, StoreNext);
            && s'.fifo == s.fifo && s'.prod.Publishing? && s'.prod.endp == s.prod.endp
            && s'.pool.wrptr == s.pool.wrptr && |s'.pool.mem| == |s.pool.mem|
  {}

  lemma RecordKept(s: State, a: Action, i: nat)
    requires i < |s.fifo| && Enabled(s, a) && KeepsRecord(s, a, TailOf(s.pool, s.fifo[i]))
    ensures IndexAfter(s, a, i) >= 0
  {
    hide TailOf;
  }

  /** Record i of s is record i' of s', and the same link follows it. */
  lemma LinkMoves(s: State, s': State, i: nat, i': nat, x: int, e: int)
    requires LinkIs(s, i, x, e) && i' < |s'.fifo| && |s'.pool.mem| == |s.pool.mem|
    requires s'.fifo[i'].addr == s.fifo[i].addr && s'.fifo[i'].data == s.fifo[i].data
    requires Node(s'.pool, s'.fifo, i' + 1) == Node(s.pool, s.fifo, i + 1)
    requires if i' + 1 < |s'.fifo| then Node(s'.pool, s'.fifo, i' + 2) == e else s'.prod.Publishing? && s'.prod.endp == e
    ensures LinkIs(s', i', x, e)
  {}

  lemma LinkStays(s: State, a: Action, x: int, e: int, i: nat)
    requires Inv(s) && Enabled(s, a) && KeepsRecord(s, a, x) && LinkIs(s, i, x, e)
    ensures IndexAfter(s, a, i) >= 0 && LinkIs(Step(s, a), IndexAfter(s, a, i), x, e)
  {
    hide Inv, Enabled, Step, KeepsRecord, TailOf;
    RecordKept(s, a, i);
    RecordStays(s, a, i);
    if i + 1 < |s.fifo| { RecordStays(s, a, i + 1); } else { NewestStays(s, a); }
    LinkMoves(s, Step(s, a), i, IndexAfter(s, a, i), x, e);
  }

  /** While the newest record's successor is being published. */
  lemma NewestStays(s: State, a: Action)
    requires Inv(s) && Enabled(s, a) && s.prod.Publishing? && |s.fifo| > 0
    ensures var s', i := Step(s, a), IndexAfter(s, a, |s.fifo| - 1);
            if a.StoreWrptr? then |s'.fifo| == i + 2 && s'.pool.wrptr == s.prod.endp
            else |s'.fifo| == i + 1 && s'.prod == s.prod
  {
    hide Chain, ProducerInv;
  }

  lemma LinkNotTwice(s: State, x: int, e: int, i: nat)
    requires Inv(s) && s.prod.Linking? && LinkIs(s, i, x, e)
    ensures x != s.pool.wrptr
  {
    hide ProducerInv, FreerInv;
  }

  lemma LinkStep(s: State, a: Action, x: int, e: int)
    requires LinkAt(s, x, e) && Enabled(s, a) && KeepsRecord(s, a, x)
    ensures LinkAt(Step(s, a), x, e) && !LinksOver(s, a, x)
  {
    StepInv(s, a);
    MeasuredStays(s, a);
    var i :| 0 <= i < |s.fifo| && LinkIs(s, i, x, e);
    if LinksOver(s, a, x) {
      LinkNotTwice(s, x, e, i);
    }
    hide Inv, AllMeasured, KeepsRecord, LinkIs, Step;
    LinkStays(s, a, x, e, i);
  }

  /** What stands at x after n steps: the tail, or the link stored over it. */
  ghost predicate Fate(trace: seq<State>, actions: seq<Action>, n: nat, x: int, w: int)
    requires n <= |actions| && |trace| == |actions| + 1
  {
    && ((forall j :: 0 <= j < n ==> !LinksOver(trace[j], actions[j], x)) ==> TailIs(trace[n], x, w))
    && (forall j :: 0 <= j < n && LinksOver(trace[j], actions[j], x) ==> Replaced(trace[j], trace[n], x))
  }

  /** The link stored in state s stands at x in state t. */
  ghost predicate Replaced(s: State, t: State, x: int) {
    s.prod.Linking? && LinkAt(t, x, s.prod.endp) && !NearEnd(s.pool, x)
  }

  lemma ReplacedStays(s: State, t: State, a: Action, x: int)
    requires Replaced(s, t, x) && Enabled(t, a) && KeepsRecord(t, a, x)
    ensures Replaced(s, Step(t, a), x) && !LinksOver(t, a, x)
  {
    hide LinkAt, Enabled, KeepsRecord, Step, LinksOver;
    LinkStep(t, a, x, s.prod.endp);
  }

  lemma ReplacedNow(s: State, a: Action, x: int, w: int)
    requires TailIs(s, x, w) && Enabled(s, a) && LinksOver(s, a, x)
    ensures Replaced(s, Step(s, a), x)
  {
    hide TailIs, LinkAt, Step;
    LinkReplacesTail(s, x, w);
  }

  lemma FateStep(trace: seq<State>, actions: seq<Action>, n: nat, x: int, w: int)
    requires n < |actions| && |trace| == |actions| + 1 && Fate(trace, actions, n, x, w)
    requires Enabled(trace[n], actions[n]) && trace[n + 1] == Step(trace[n], actions[n])
    requires KeepsRecord(trace[n], actions[n], x)
    ensures Fate(trace, actions, n + 1, x, w)
  {
    hide Enabled, KeepsRecord, TailIs, Step, LinksOver, Replaced;
    forall j | 0 <= j < n && LinksOver(trace[j], actions[j], x)
      ensures Replaced(trace[j], trace[n + 1], x) && !LinksOver(trace[n], actions[n], x)
    {
      ReplacedStays(trace[j], trace[n], actions[n], x);
    }
    if forall j :: 0 <= j < n ==> !LinksOver(trace[j], actions[j], x) {
      if LinksOver(trace[n], actions[n], x) {
        ReplacedNow(trace[n], actions[n], x, w);
      } else {
        SparesIs(trace[n], actions[n], x);
        TailStep(trace[n], actions[n], x, w);
      }
    }
  }

  lemma SparesIs(s: State, a: Action, x: int)
    ensures Spares(s, a, x) <==> KeepsRecord(s, a, x) && !LinksOver(s, a, x)
  {}

  lemma {:induction false} TailFate(trace: seq<State>, actions: seq<Action>, n: nat, x: int, w: int)
    requires KeepingRun(trace, actions, x) && n <= |actions| && TailIs(trace[0], x, w)
    ensures |trace| == |actions| + 1 && Fate(trace, actions, n, x, w)
  {
    RunLength(trace, actions, x);
    if n > 0 {
      TailFate(trace, actions, n - 1, x, w);
      StepOfRun(trace, actions, n - 1, x);
      hide *;
      FateStep(trace, actions, n - 1, x, w);
    }
  }

  lemma StepOfRun(trace: seq<State>, actions: seq<Action>, n: nat, x: int)
    requires KeepingRun(trace, actions, x) && n < |actions|
    ensures |trace| == |actions| + 1
    ensures Enabled(trace[n], actions[n]) && trace[n + 1] == Step(trace[n], actions[n])
    ensures KeepsRecord(trace[n], actions[n], x)
  {
    hide Enabled, Step, KeepsRecord;
  }

  lemma RunLength(trace: seq<State>, actions: seq<Action>, x: int)
    requires KeepingRun(trace, actions, x)
    ensures |trace| == |actions| + 1
  {}

  lemma TailRead(s: State, x: int, w: int, i: nat)
    requires TailIs(s, x, w) && i < |s.fifo| && TailOf(s.pool, s.fifo[i]) == x
    ensures FilterWord(s, i) == w
  {
    hide Inv, AllMeasured, TailAt, TailOf, Load, FilterWord;
    FilterReadsTail(s, i);
  }

  /** Two records do not end at the same place. */
  lemma OneTailPerRecord(s: State, i: nat, j: nat)
    requires Inv(s) && i < |s.fifo| && j < |s.fifo| && TailOf(s.pool, s.fifo[i]) == TailOf(s.pool, s.fifo[j])
    ensures i == j
  {
    assert Ordered(s.pool, s.fifo);
    hide ProducerInv, FreerInv;
    OffOfWord(s.pool, s.fifo[i].addr, s.fifo[i].Extent());
    OffOfWord(s.pool, s.fifo[j].addr, s.fifo[j].Extent());
  }

  lemma LinkRead(s: State, x: int, e: int, i: nat)
    requires LinkAt(s, x, e) && i < |s.fifo| && TailOf(s.pool, s.fifo[i]) == x
    ensures FilterWord(s, i) == SignedLink(s, i, e)
  {
    hide Inv, AllMeasured, TailOf, HasTail, FilterWord, LinkAfter;
    var k :| 0 <= k < |s.fifo| && LinkIs(s, k, x, e);
    OneTailPerRecord(s, i, k);
    FilterReadsLink(s, i);
  }

  /** What ethernet_filter reads for the record that ends at x, in every interleaving from the
      moment the tail w was stored there, while the record is neither abandoned nor reclaimed:
      w exactly when the producer has not stored the next record's link since, or that link, as
      it stands, is w.  Behind a commit that wraps no link is ever stored. */
  lemma FilterReadsIff(trace: seq<State>, actions: seq<Action>, x: int, w: int, i: nat)
    requires KeepingRun(trace, actions, x) && TailIs(trace[0], x, w)
    requires i < |trace[|actions|].fifo| && TailOf(trace[|actions|].pool, trace[|actions|].fifo[i]) == x
    ensures |trace| == |actions| + 1
    ensures forall j :: 0 <= j < |actions| && LinksOver(trace[j], actions[j], x) ==>
              trace[j].prod.Linking? && !NearEnd(trace[j].pool, x)
    ensures FilterWord(trace[|actions|], i) == w
            <==> (forall j :: 0 <= j < |actions| && LinksOver(trace[j], actions[j], x) ==>
                    w == SignedLink(trace[|actions|], i, trace[j].prod.endp))
  {
    hide *;
    RunLength(trace, actions, x);
    TailFate(trace, actions, |actions|, x, w);
    FateRead(trace, actions, x, w, i);
  }

  lemma FateRead(trace: seq<State>, actions: seq<Action>, x: int, w: int, i: nat)
    requires |trace| == |actions| + 1 && Fate(trace, actions, |actions|, x, w)
    requires i < |trace[|actions|].fifo| && TailOf(trace[|actions|].pool, trace[|actions|].fifo[i]) == x
    ensures forall j :: 0 <= j < |actions| && LinksOver(trace[j], actions[j], x) ==>
              trace[j].prod.Linking? && !NearEnd(trace[j].pool, x)
    ensures FilterWord(trace[|actions|], i) == w
            <==> (forall j :: 0 <= j < |actions| && LinksOver(trace[j], actions[j], x) ==>
                    w == SignedLink(trace[|actions|], i, trace[j].prod.endp))
  {
    hide TailOf, FilterWord, TailIs, LinkAt, LinksOver, SignedLink;
    var s := trace[|actions|];
    forall j | 0 <= j < |actions| && LinksOver(trace[j], actions[j], x)
      ensures FilterWord(s, i) == SignedLink(s, i, trace[j].prod.endp)
    {
      LinkRead(s, x, trace[j].prod.endp, i);
    }
    if forall j :: 0 <= j < |actions| ==> !LinksOver(trace[j], actions[j], x) {
      TailRead(s, x, w, i);
    }
  }

  // ---------- a run in which the filter reads a link ----------

  lemma Extend(trace: seq<State>, actions: seq<Action>, a: Action)
    returns (trace': seq<State>, actions': seq<Action>)
    requires T.IsRun(trace, actions) && Enabled(trace[|actions|], a)
    ensures T.IsRun(trace', actions') && actions' == actions + [a]
    ensures |trace'| == |actions'| + 1 && |trace| == |actions| + 1
    ensures trace' == trace + [Step(trace[|actions|], a)]
  {
    trace', actions' := trace + [Step(trace[|actions|], a)], actions + [a];
    hide Enabled, Step;
  }

  const ZEROS := [0, 0, 0, 0, 0, 0]

  /** Four steps store a frame of six words and its tail, 0, when there is room ahead. */
  lemma StoreFrame(trace: seq<State>, actions: seq<Action>) returns (trace': seq<State>, actions': seq<Action>)
    requires T.IsRun(trace, actions) && |trace| == |actions| + 1
    requires var s := trace[|actions|];
             s.prod.Idle? && s.pool.rdptr == START <= s.pool.wrptr && s.pool.wrptr + 18 < s.pool.End()
    ensures T.IsRun(trace', actions') && |trace'| == |actions'| + 1
    ensures |actions'| == |actions| + 4 && trace <= trace' && actions <= actions'
    ensures actions'[|actions| + 3] == StoreTail(0)
    ensures var s, s', t := trace[|actions|], trace'[|actions'|], trace'[|actions| + 3];
            && t.prod.Closing? && t.prod.dptr == s.pool.wrptr + 18
            && s'.prod == Tailed(s.pool.wrptr + 18, ZEROS, 20) && s'.fifo == s.fifo
            && s'.pool.rdptr == START && s'.pool.wrptr == s.pool.wrptr && |s'.pool.mem| == |s.pool.mem|
  {
    hide StoreAll, T.IsRun;
    trace', actions' := Extend(trace, actions, Reserve);
    trace', actions' := Extend(trace', actions', StartFrame(ZEROS));
    trace', actions' := Extend(trace', actions', EndFrame(0));
    trace', actions' := Extend(trace', actions', StoreTail(0));
  }

  /** Decide and StoreNext, away from the end of the ring. */
  lemma StoreLink(trace: seq<State>, actions: seq<Action>) returns (trace': seq<State>, actions': seq<Action>)
    requires T.IsRun(trace, actions) && |trace| == |actions| + 1
    requires var s := trace[|actions|]; s.prod.Tailed? && !NearEnd(s.pool, s.prod.dptr)
    ensures T.IsRun(trace', actions') && |trace'| == |actions'| + 1
    ensures |actions'| == |actions| + 2 && trace <= trace' && actions <= actions'
    ensures var s, s' := trace[|actions|], trace'[|actions'|];
            && s'.prod == Publishing(s.prod.dptr, s.prod.frame, s.prod.length) && s'.fifo == s.fifo
            && s'.pool.rdptr == s.pool.rdptr && s'.pool.wrptr == s.pool.wrptr && |s'.pool.mem| == |s.pool.mem|
  {
    hide T.IsRun;
    trace', actions' := Extend(trace, actions, Decide);
    trace', actions' := Extend(trace', actions', StoreNext);
  }

  lemma StartRun(words: seq<int>) returns (trace: seq<State>, actions: seq<Action>)
    requires |words| > START + MIN_USAGE
    ensures T.IsRun(trace, actions) && trace == [Init(words)] && actions == []
  {
    trace, actions := [Init(words)], [];
    hide Init;
  }

  /** The first frame, committed at the start of the ring. */
  lemma FirstFrame() returns (trace: seq<State>, actions: seq<Action>)
    ensures T.IsRun(trace, actions) && |actions| == 7 && |trace| == 8 && actions[3] == StoreTail(0)
    ensures trace[3].prod.Closing? && trace[3].prod.dptr == START + 18
    ensures var s := trace[7];
            && s.fifo == [Packet(START, ZEROS, 20, false, false)] && s.prod.Idle?
            && s.pool.rdptr == START && s.pool.wrptr == START + 18 && |s.pool.mem| == START + 201
  {
    trace, actions := StartRun(seq(START + 201, _ => 0));
    hide T.IsRun;
    trace, actions := StoreFrame(trace, actions);
    trace, actions := StoreLink(trace, actions);
    trace, actions := Extend(trace, actions, StoreWrptr);
  }

  /** In a ring of 200 words the producer stores a frame with tail 0 (action 3) and commits it,
      stores a second frame, and stores its link: the first frame is not yet staged, and the
      word the filter will take for its tail is an address. */
  lemma TailLostRun() returns (trace: seq<State>, actions: seq<Action>)
    ensures T.IsRun(trace, actions) && |actions| == 13 && |trace| == 14 && actions[3] == StoreTail(0)
    ensures trace[3].prod.Closing?
    ensures var s := trace[13];
            && |s.fifo| == 1 && !s.fifo[0].staged && TailOf(s.pool, s.fifo[0]) == trace[3].prod.dptr
            && FilterWord(s, 0) > 0
  {
    trace, actions := FirstFrame();
    var once := trace;
    hide T.IsRun, FilterWord;
    trace, actions := StoreFrame(trace, actions);
    assert trace[3] == once[3];
    trace, actions := StoreLink(trace, actions);
    LostAtEnd(trace, actions);
  }

  lemma LostAtEnd(trace: seq<State>, actions: seq<Action>)
    requires T.IsRun(trace, actions)
    requires var s := trace[|actions|];
             && |s.fifo| == 1 && Measures(s.fifo[0]) && s.prod.Publishing?
             && TailOf(s.pool, s.fifo[0]) == s.pool.wrptr
    ensures FilterWord(trace[|actions|], 0) > 0
  {
    T.RunInv(trace, actions, |actions|);
    FilterReadsLink(trace[|actions|], 0);
  }
}
