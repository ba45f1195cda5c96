/** Every interleaving of the lock-free producer (mii_rx_pins calling mii_reserve and
    mii_commit), of mii_free running under the lock, and of the consumers that write packet
    headers.  One action is one load-test or one store on shared memory, except that the
    stores of lines 162-174 of mii_free are one action (module SplitFree takes them apart). */
module PoolSteps {
  import opened RingPool

  /** Where the producer is; `frame` holds the data words stored so far. */
  datatype Producer =
    | Idle
    | Reserved                                                   // mii_reserve returned a buffer
    | Filling(dptr: int, frame: seq<int>)                        // waiting for a word or end of frame
    | Clear(dptr: int, frame: seq<int>)                          // saw dptr != *rdptr for a data word
    | Closing(dptr: int, frame: seq<int>, length: int)           // length stored, tail word pending
    | Tailed(dptr: int, frame: seq<int>, length: int)            // tail stored, entering mii_commit
    | Linking(endp: int, frame: seq<int>, length: int)           // before the store to hdr->next
    | Publishing(endp: int, frame: seq<int>, length: int)        // before the store to wrptr

  /** Where the lock holder is inside mii_free. */
  datatype Freer =
    | NotFreeing
    | AtHead(h: int, first: bool)    // about to compare hdr with rdptr; first: hdr is the caller's
    | AtWrptr(h: int)                // about to compare hdr with wrptr
    | AtNext(h: int)                 // about to test hdr->next > 0

  /** fifo is a history variable: the committed, unreclaimed records. */
  datatype State = State(pool: Pool, prod: Producer, freer: Freer, fifo: seq<Packet>)

  datatype Action =
    | Reserve
    | StartFrame(words: seq<int>)    // the first six words, stored unguarded
    | PollWord                       // load *rdptr and compare it with dptr
    | StoreWord(word: int)
    | SetOwn(offset: int, value: int) // timestamp, crc of the record being filled
    | EndFrame(tailBytes: int)
    | StoreTail(tail: int)           // load *rdptr, store the tail word, call mii_commit
    | Decide                         // test the slack and rdptr_at_start, clear stage
    | StoreNext
    | StoreWrptr
    | CallFree(addr: int)
    | FreeHead
    | FreeWrptr
    | FreeNext
    | SetStage(index: nat)
    | SetHeader(index: nat, offset: int, value: int)

  function Init(words: seq<int>): State
    requires |words| > START + MIN_USAGE
  {
    var end := |words| - 1;
    State(Pool(START, START, true, words[START := 0][end := START]), Idle, NotFreeing, [])
  }

  predicate IsLive(q: seq<Packet>, a: int) {
    exists i :: 0 <= i < |q| && q[i].addr == a && !q[i].freed
  }

  function Mark(q: seq<Packet>, a: int): (m: seq<Packet>)
    ensures |m| == |q|
  {
    seq(|q|, i requires 0 <= i < |q| => if q[i].addr == a then q[i].(freed := true) else q[i])
  }

  predicate NearEnd(r: Pool, endp: int) { r.End() - endp < MIN_USAGE }

  /** mii_reserve has no buffer to give. */
  predicate Refused(r: Pool) { r.rdptr > r.wrptr && r.rdptr - r.wrptr < MIN_USAGE }

  /** dptr += 4, and on to the wrap address when it reaches the end. */
  function NextPointer(r: Pool, d: int): int { r.Word(d, 1) }

  /** Whose turn it may be.  A caller of mii_free holds an unfreed record and one call runs
      at a time (the lock). */
  predicate Enabled(s: State, a: Action) {
    var r := s.pool;
    match a
    case Reserve => s.prod.Idle?
    case StartFrame(ws) => s.prod.Reserved? && |ws| == 6
    case PollWord => s.prod.Filling?
    case StoreWord(_) => s.prod.Clear?
    case SetOwn(k, _) =>
      (s.prod.Reserved? || s.prod.Filling? || s.prod.Closing?) && INFO < k < DATA && k != LENGTH
    case EndFrame(t) => s.prod.Filling? && 0 <= t < 4
    case StoreTail(_) => s.prod.Closing?
    case Decide => s.prod.Tailed?
    case StoreNext => s.prod.Linking?
    case StoreWrptr => s.prod.Publishing?
    case CallFree(h) => s.freer.NotFreeing? && IsLive(s.fifo, h)
    case FreeHead => s.freer.AtHead?
    case FreeWrptr => s.freer.AtWrptr?
    case FreeNext => s.freer.AtNext?
    case SetStage(i) => i < |s.fifo| && !s.fifo[i].staged
    case SetHeader(i, k, _) => i < |s.fifo| && INFO < k < DATA && k != LENGTH && k != STAGE
  }

  function Store(r: Pool, x: int, v: int): Pool {
    if 0 <= x < |r.mem| then r.(mem := r.mem[x := v]) else r
  }

  function StoreAll(r: Pool, x: int, vs: seq<int>): (r': Pool)
    ensures r'.rdptr == r.rdptr && r'.wrptr == r.wrptr && r'.atStart == r.atStart && |r'.mem| == |r.mem|
  {
    if vs == [] then r else Store(StoreAll(r, x, vs[..|vs| - 1]), x + |vs| - 1, vs[|vs| - 1])
  }

  function Load(r: Pool, x: int): int { if 0 <= x < |r.mem| then r.mem[x] else 0 }

  function Step(s: State, a: Action): State
    requires Enabled(s, a)
  {
    var r := s.pool;
    match a
    case Reserve =>
      if Refused(r) then s
      else s.(pool := Store(r, r.wrptr + INFO, DESCRIPTOR), prod := Reserved)
    case StartFrame(ws) =>
      s.(pool := StoreAll(r, r.wrptr + DATA, ws), prod := Filling(r.wrptr + DATA + 6, ws))
    case PollWord =>
      if s.prod.dptr == r.rdptr then s else s.(prod := Clear(s.prod.dptr, s.prod.frame))
    case StoreWord(w) =>
      s.(pool := Store(r, s.prod.dptr, w), prod := Filling(NextPointer(r, s.prod.dptr), s.prod.frame + [w]))
    case SetOwn(k, v) =>
      s.(pool := Store(r, r.wrptr + k, v))
    case EndFrame(t) =>
      var length := 4 * (|s.prod.frame| - 1) + t;
      s.(pool := Store(r, r.wrptr + LENGTH, length), prod := Closing(s.prod.dptr, s.prod.frame, length))
    case StoreTail(w) =>
      if s.prod.dptr == r.rdptr then s.(prod := Idle)
      else s.(pool := Store(r, s.prod.dptr, w), prod := Tailed(s.prod.dptr, s.prod.frame, s.prod.length))
    case Decide =>
      if NearEnd(r, s.prod.dptr) && r.atStart then s.(prod := Idle)
      else s.(pool := Store(r, r.wrptr + STAGE, 0),
              prod := Linking(if NearEnd(r, s.prod.dptr) then START else s.prod.dptr, s.prod.frame, s.prod.length))
    case StoreNext =>
      s.(pool := Store(r, r.wrptr, s.prod.endp), prod := Publishing(s.prod.endp, s.prod.frame, s.prod.length))
    case StoreWrptr =>
      s.(pool := r.(wrptr := s.prod.endp), prod := Idle,
         fifo := s.fifo + [Packet(r.wrptr, s.prod.frame, s.prod.length, false, false)])
    case CallFree(h) => s.(freer := AtHead(h, true))
    case FreeHead =>
      var h := s.freer.h;
      if h == r.rdptr then
        var next := Abs(Load(r, h));
        s.(pool := Store(r, h, 0).(rdptr := next, atStart := next == START),
           freer := AtWrptr(next),
           fifo := if |s.fifo| > 0 then s.fifo[1..] else [])
      else
        s.(pool := Store(r, h, -Load(r, h)), freer := NotFreeing, fifo := Mark(s.fifo, h))
    case FreeWrptr =>
      s.(freer := if s.freer.h == r.wrptr then NotFreeing else AtNext(s.freer.h))
    case FreeNext =>
      s.(freer := if Load(r, s.freer.h) > 0 then NotFreeing else AtHead(s.freer.h, false))
    case SetStage(i) =>
      s.(pool := Store(r, s.fifo[i].addr + STAGE, 1), fifo := s.fifo[i := s.fifo[i].(staged := true)])
    case SetHeader(i, k, v) =>
      s.(pool := Store(r, s.fifo[i].addr + k, v))
  }

  // ---------- the invariant ----------

  /** The producer owns n words from wrptr on. */
  predicate Room(r: Pool, n: int) { r.Off(r.wrptr) + n <= r.Size() }

  predicate Filled(r: Pool, dptr: int, frame: seq<int>)
    requires r.WellFormed()
  {
    && |frame| >= 6
    && Room(r, DATA + |frame|)
    && dptr == r.Word(r.wrptr, DATA + |frame|)
    && Holds(r, r.wrptr, frame)
  }

  predicate Measured(r: Pool, frame: seq<int>, length: int)
    requires r.WellFormed()
  {
    r.mem[r.wrptr + LENGTH] == length && 4 * (|frame| - 1) <= length < 4 * |frame|
  }

  predicate Placed(r: Pool, endp: int, frame: seq<int>, length: int)
    requires r.WellFormed()
  {
    && r.Usable(endp) && |frame| >= 6
    && r.Off(r.wrptr) + DATA + |frame| <= r.Off(endp)
    && Holds(r, r.wrptr, frame)
    && Measured(r, frame, length)
    && r.mem[r.wrptr + STAGE] == 0
  }

  predicate ProducerInv(r: Pool, prod: Producer)
    requires r.WellFormed()
  {
    (prod.Idle? || r.mem[r.wrptr + INFO] == DESCRIPTOR) &&
    match prod
    case Idle => true
    case Reserved => Room(r, MIN_USAGE)
    case Filling(d, f) => Filled(r, d, f)
    case Clear(d, f) => Filled(r, d, f) && Room(r, DATA + |f| + 1)
    case Closing(d, f, n) => Filled(r, d, f) && Measured(r, f, n)
    case Tailed(d, f, n) => Filled(r, d, f) && Measured(r, f, n) && Room(r, DATA + |f| + 1)
    case Linking(e, f, n) => Placed(r, e, f, n)
    case Publishing(e, f, n) => Placed(r, e, f, n) && r.mem[r.wrptr] == e
  }

  /** Between calls of mii_free the oldest record is live: reclamation is maximal. */
  predicate Settled(q: seq<Packet>) { |q| > 0 ==> !q[0].freed }

  predicate FreerInv(r: Pool, freer: Freer, q: seq<Packet>) {
    match freer
    case NotFreeing => Settled(q)
    case AtHead(h, true) => Settled(q) && IsLive(q, h)
    case AtHead(h, false) => h == r.rdptr && |q| > 0 && q[0].freed
    case AtWrptr(h) => h == r.rdptr
    case AtNext(h) => h == r.rdptr && |q| > 0
  }

  predicate Inv(s: State) {
    && Chain(s.pool, s.fifo)
    && ProducerInv(s.pool, s.prod)
    && FreerInv(s.pool, s.freer, s.fifo)
  }

  // ---------- every action keeps the invariant ----------

  lemma InitInv(words: seq<int>)
    requires |words| > START + MIN_USAGE
    ensures Inv(Init(words))
  {}

  /** The words from wrptr on, and their order, are the same in r', d words nearer to rdptr. */
  ghost predicate SameAhead(r: Pool, r': Pool, d: int) {
    && r.WellFormed() && r'.WellFormed() && |r.mem| == |r'.mem| && r'.wrptr == r.wrptr && 0 <= d
    && forall x :: r.InRing(x) && r.Off(r.wrptr) <= r.Off(x) ==> r'.Off(x) == r.Off(x) - d && r'.mem[x] == r.mem[x]
  }

  lemma WordAhead(r: Pool, r': Pool, d: int, k: int)
    requires SameAhead(r, r', d) && 0 <= k && r.Off(r.wrptr) + k < r.Size()
    ensures r'.Off(r.wrptr) == r.Off(r.wrptr) - d
    ensures r.InRing(r.Word(r.wrptr, k)) && r'.Word(r.wrptr, k) == r.Word(r.wrptr, k)
    ensures r'.mem[r.Word(r.wrptr, k)] == r.mem[r.Word(r.wrptr, k)]
  {
    OffOfWord(r, r.wrptr, k);
  }

  lemma HoldsAhead(r: Pool, r': Pool, d: int, f: seq<int>)
    requires SameAhead(r, r', d) && Room(r, DATA + |f|) && Holds(r, r.wrptr, f)
    ensures Room(r', DATA + |f|) && Holds(r', r.wrptr, f)
  {
    WordAhead(r, r', d, 0);
    forall k | 0 <= k < |f|
      ensures r'.mem[r'.Word(r.wrptr, DATA + k)] == f[k]
    {
      WordAhead(r, r', d, DATA + k);
    }
  }

  lemma EndAhead(r: Pool, r': Pool, d: int, endp: int)
    requires SameAhead(r, r', d) && r.Usable(endp) && r.Off(r.wrptr) <= r.Off(endp)
    ensures r'.Off(endp) == r.Off(endp) - d && r'.Off(r.wrptr) == r.Off(r.wrptr) - d
  {}

  lemma FilledAhead(r: Pool, r': Pool, d: int, dptr: int, f: seq<int>)
    requires SameAhead(r, r', d) && Filled(r, dptr, f)
    ensures Filled(r', dptr, f) && forall n :: Room(r, n) ==> Room(r', n)
  {
    HoldsAhead(r, r', d, f);
    WordAhead(r, r', d, DATA);
    hide Holds;
  }

  lemma MeasuredAhead(r: Pool, r': Pool, d: int, f: seq<int>, length: int)
    requires SameAhead(r, r', d) && Room(r, DATA + 1) && Measured(r, f, length)
    ensures Measured(r', f, length) && r'.mem[r.wrptr + STAGE] == r.mem[r.wrptr + STAGE]
  {
    WordAhead(r, r', d, LENGTH);
    WordAhead(r, r', d, STAGE);
  }

  lemma PlacedAhead(r: Pool, r': Pool, d: int, endp: int, f: seq<int>, length: int)
    requires SameAhead(r, r', d) && Placed(r, endp, f, length)
    ensures Placed(r', endp, f, length)
  {
    EndAhead(r, r', d, endp);
    HoldsAhead(r, r', d, f);
    MeasuredAhead(r, r', d, f, length);
    hide Holds, Measured;
  }

  lemma HeaderAhead(r: Pool, r': Pool, d: int)
    requires SameAhead(r, r', d)
    ensures r.WellFormed() && r'.WellFormed() && r'.wrptr == r.wrptr && |r.mem| == |r'.mem|
    ensures forall n :: Room(r, n) ==> Room(r', n)
    ensures Room(r, DATA) ==> r'.mem[r.wrptr] == r.mem[r.wrptr] && r'.mem[r.wrptr + INFO] == r.mem[r.wrptr + INFO]
  {
    if Room(r, DATA) {
      WordAhead(r, r', d, 0);
      WordAhead(r, r', d, INFO);
    }
  }

  /** The producer's claim survives any change that leaves its words and their order alone. */
  lemma ProducerKeeps(r: Pool, r': Pool, prod: Producer, d: int)
    requires SameAhead(r, r', d) && ProducerInv(r, prod)
    ensures ProducerInv(r', prod)
  {
    HeaderAhead(r, r', d);
    assert prod.Idle? || Room(r, DATA);
    hide Holds, SameAhead, Filled, Measured, Placed, Room, Pool.WellFormed;
    match prod
    case Idle =>
    case Reserved =>
    case Filling(p, f) => FilledAhead(r, r', d, p, f);
    case Clear(p, f) => FilledAhead(r, r', d, p, f);
    case Closing(p, f, n) => FilledAhead(r, r', d, p, f); RoomOf(r, p, f); MeasuredAhead(r, r', d, f, n);
    case Tailed(p, f, n) => FilledAhead(r, r', d, p, f); RoomOf(r, p, f); MeasuredAhead(r, r', d, f, n);
    case Linking(e, f, n) => PlacedAhead(r, r', d, e, f, n);
    case Publishing(e, f, n) => PlacedAhead(r, r', d, e, f, n);
  }

  lemma RoomOf(r: Pool, dptr: int, f: seq<int>)
    requires r.WellFormed() && Filled(r, dptr, f)
    ensures Room(r, DATA + 1)
  {}

  /** mii_free's view survives commits and header writes. */
  lemma FreerKeeps(r: Pool, r': Pool, freer: Freer, q: seq<Packet>, q': seq<Packet>)
    requires FreerInv(r, freer, q) && r'.rdptr == r.rdptr && |q| <= |q'|
    requires forall i :: 0 <= i < |q| ==> q'[i].addr == q[i].addr && q'[i].freed == q[i].freed
    requires q == [] && q' != [] ==> !q'[0].freed
    ensures FreerInv(r', freer, q')
  {
    if freer.AtHead? && freer.first {
      var i :| 0 <= i < |q| && q[i].addr == freer.h && !q[i].freed;
      assert q'[i].addr == freer.h && !q'[i].freed;
    }
  }

  /** A store beyond the committed records keeps the chain. */
  lemma StoreFree(r: Pool, q: seq<Packet>, x: int, v: int)
    requires Chain(r, q) && r.InRing(x) && r.Off(r.wrptr) <= r.Off(x)
    ensures Chain(Store(r, x, v), q)
  {
    WriteOutside(r, q, x, v);
  }

  /** A store inside committed record i keeps the producer's claim. */
  lemma StoreRecord(r: Pool, q: seq<Packet>, i: nat, k: int, v: int, prod: Producer)
    requires Chain(r, q) && i < |q| && 0 <= k < DATA && ProducerInv(r, prod)
    ensures Store(r, q[i].addr + k, v).WellFormed()
    ensures ProducerInv(Store(r, q[i].addr + k, v), prod)
  {
    var r' := Store(r, q[i].addr + k, v);
    assert r.Off(q[i].addr + k) < r.Off(r.wrptr);
    assert forall x :: r'.Off(x) == r.Off(x);
    ProducerKeeps(r, r', prod, 0);
  }

  /** Where the k-th of the first words goes. */
  lemma StartWord(r: Pool, r': Pool, k: nat)
    requires r.WellFormed() && k < 6 && Room(r, MIN_USAGE)
    requires r'.rdptr == r.rdptr && r'.wrptr == r.wrptr && |r'.mem| == |r.mem|
    ensures r'.InRing(r.wrptr + DATA + k) && r'.Off(r.wrptr + DATA + k) == r'.Off(r.wrptr) + DATA + k
    ensures r'.Off(r.wrptr) == r.Off(r.wrptr) && r.Usable(r.wrptr)
  {}

  lemma {:induction false} StoreAllAt(r: Pool, x: int, vs: seq<int>)
    requires 0 <= x && x + |vs| <= |r.mem|
    ensures forall k :: 0 <= k < |vs| ==> StoreAll(r, x, vs).mem[x + k] == vs[k]
    ensures forall y :: 0 <= y < x ==> StoreAll(r, x, vs).mem[y] == r.mem[y]
  {
    if vs != [] { StoreAllAt(r, x, vs[..|vs| - 1]); }
  }

  lemma {:induction false} StartFrameInv(r: Pool, q: seq<Packet>, ws: seq<int>)
    requires Chain(r, q) && |ws| <= 6 && Room(r, MIN_USAGE)
    ensures Chain(StoreAll(r, r.wrptr + DATA, ws), q)
  {
    if ws != [] {
      var n := |ws| - 1;
      var r1 := StoreAll(r, r.wrptr + DATA, ws[..n]);
      StartWord(r, r1, n);
      hide Chain, Room, Pool.Usable, Pool.WellFormed;
      StartFrameInv(r, q, ws[..n]);
      StoreFree(r1, q, r.wrptr + DATA + n, ws[n]);
    }
  }

  /** mii_reserve hands out at least MIN_USAGE words. */
  lemma ReserveRoom(r: Pool)
    requires r.WellFormed() && !Refused(r)
    ensures Room(r, MIN_USAGE)
  {}

  lemma ReserveInv(r: Pool, q: seq<Packet>)
    requires Chain(r, q) && !Refused(r)
    ensures var r' := Store(r, r.wrptr + INFO, DESCRIPTOR); Chain(r', q) && ProducerInv(r', Reserved)
  {
    ReserveRoom(r);
    assert r.Off(r.wrptr + INFO) == r.Off(r.wrptr) + INFO;
    StoreFree(r, q, r.wrptr + INFO, DESCRIPTOR);
  }

  lemma StoreWordInv(r: Pool, q: seq<Packet>, d: int, f: seq<int>, w: int)
    requires Chain(r, q) && ProducerInv(r, Clear(d, f))
    ensures Chain(Store(r, d, w), q)
    ensures ProducerInv(Store(r, d, w), Filling(NextPointer(r, d), f + [w]))
  {
    OffOfWord(r, r.wrptr, DATA + |f|);
    StoreFree(r, q, d, w);
    var r' := Store(r, d, w);
    forall k | 0 <= k < |f| + 1
      ensures r'.mem[r'.Word(r.wrptr, DATA + k)] == (f + [w])[k]
    {
      OffOfWord(r, r.wrptr, DATA + k);
    }
    assert Holds(r', r.wrptr, f + [w]);
  }

  lemma HoldsAside(r: Pool, x: int, v: int, f: seq<int>)
    requires r.WellFormed() && Room(r, DATA + |f|) && Holds(r, r.wrptr, f)
    requires r.InRing(x) && r.Off(r.wrptr) <= r.Off(x)
    requires r.Off(x) < r.Off(r.wrptr) + DATA || r.Off(r.wrptr) + DATA + |f| <= r.Off(x)
    ensures Store(r, x, v).WellFormed() && Room(Store(r, x, v), DATA + |f|) && Holds(Store(r, x, v), r.wrptr, f)
  {
    forall k | 0 <= k < |f|
      ensures Store(r, x, v).mem[r.Word(r.wrptr, DATA + k)] == f[k]
    {
      OffOfWord(r, r.wrptr, DATA + k);
    }
  }

  /** A store at a producer word other than the ones already filled. */
  lemma StoreAside(r: Pool, q: seq<Packet>, x: int, v: int, f: seq<int>)
    requires Chain(r, q) && Room(r, DATA + |f|) && Holds(r, r.wrptr, f)
    requires r.InRing(x) && r.Off(r.wrptr) <= r.Off(x)
    requires r.Off(x) < r.Off(r.wrptr) + DATA || r.Off(r.wrptr) + DATA + |f| <= r.Off(x)
    ensures Chain(Store(r, x, v), q) && Room(Store(r, x, v), DATA + |f|) && Holds(Store(r, x, v), r.wrptr, f)
  {
    StoreFree(r, q, x, v);
    HoldsAside(r, x, v, f);
  }

  /** The wrap decision of mii_commit leaves the end pointer strictly after the record in
      ring order, so that publishing it cannot meet rdptr. */
  lemma DecideInv(r: Pool, q: seq<Packet>, d: int, f: seq<int>, n: int)
    requires Chain(r, q) && ProducerInv(r, Tailed(d, f, n))
    requires !(NearEnd(r, d) && r.atStart)
    ensures var r' := Store(r, r.wrptr + STAGE, 0);
            Chain(r', q) && ProducerInv(r', Linking(if NearEnd(r, d) then START else d, f, n))
  {
    EndUsable(r, d, f);
    HeaderInRing(r, STAGE);
    StoreAside(r, q, r.wrptr + STAGE, 0, f);
    hide Chain, Holds;
  }

  lemma EndUsable(r: Pool, d: int, f: seq<int>)
    requires r.WellFormed() && Filled(r, d, f) && Room(r, DATA + |f| + 1) && !(NearEnd(r, d) && r.atStart)
    ensures var endp := if NearEnd(r, d) then START else d;
            r.Usable(endp) && r.Off(r.wrptr) + DATA + |f| <= r.Off(endp)
    ensures Room(r, DATA)
  {
    OffOfWord(r, r.wrptr, DATA + |f|);
    hide Holds;
  }

  /** The guard dptr != rdptr tells exactly whether another word fits. */
  lemma OffOfPointer(r: Pool, d: int, f: seq<int>)
    requires r.WellFormed() && Room(r, DATA + |f|) && d == r.Word(r.wrptr, DATA + |f|)
    ensures d != r.rdptr <==> Room(r, DATA + |f| + 1)
  {
    if Room(r, DATA + |f| + 1) { OffOfWord(r, r.wrptr, DATA + |f|); }
  }

  lemma StartStep(r: Pool, q: seq<Packet>, ws: seq<int>)
    requires Chain(r, q) && ProducerInv(r, Reserved) && |ws| == 6
    ensures var r' := StoreAll(r, r.wrptr + DATA, ws);
            Chain(r', q) && ProducerInv(r', Filling(r.wrptr + DATA + 6, ws))
  {
    StartFrameInv(r, q, ws);
    StartWord(r, StoreAll(r, r.wrptr + DATA, ws), 5);
    StoreAllAt(r, r.wrptr + DATA, ws);
    hide StoreAll, Chain;
  }

  /** The producer before it reaches the wrap decision. */
  lemma FillStep(s: State, a: Action)
    requires Inv(s) && Enabled(s, a)
    requires a.Reserve? || a.StartFrame? || a.PollWord? || a.StoreWord?
    ensures Inv(Step(s, a)) && Step(s, a).fifo == s.fifo
  {
    assert s.pool.WellFormed();
    hide Chain, Holds, StoreAll, Filled;
    var r, q := s.pool, s.fifo;
    match a
    case Reserve =>
      if !Refused(r) { ReserveInv(r, q); }
    case StartFrame(ws) => StartStep(r, q, ws);
    case PollWord => PollStep(s);
    case StoreWord(w) => StoreWordInv(r, q, s.prod.dptr, s.prod.frame, w);
  }

  lemma PollStep(s: State)
    requires Inv(s) && s.prod.Filling?
    ensures ProducerInv(s.pool, Step(s, PollWord).prod)
    ensures Step(s, PollWord).pool == s.pool && Step(s, PollWord).fifo == s.fifo && Step(s, PollWord).freer == s.freer
  {
    OffOfPointer(s.pool, s.prod.dptr, s.prod.frame);
    hide Holds, Chain;
  }

  /** A store into header word k of the producer's record, other than the owner word. */
  lemma SetOwnInv(r: Pool, q: seq<Packet>, prod: Producer, k: int, v: int)
    requires Chain(r, q) && ProducerInv(r, prod) && (prod.Reserved? || prod.Filling? || prod.Closing?)
    requires INFO < k < DATA && k != LENGTH
    ensures Chain(Store(r, r.wrptr + k, v), q) && ProducerInv(Store(r, r.wrptr + k, v), prod)
  {
    assert 0 <= k < DATA;
    hide *;
    ChainFormed(r, q);
    SetOwnProducer(r, prod, k, v);
    HeaderInRing(r, k);
    StoreFree(r, q, r.wrptr + k, v);
  }

  lemma ChainFormed(r: Pool, q: seq<Packet>)
    requires Chain(r, q)
    ensures r.WellFormed() && r.Usable(r.wrptr)
  {}

  lemma SetOwnProducer(r: Pool, prod: Producer, k: int, v: int)
    requires r.WellFormed() && ProducerInv(r, prod) && (prod.Reserved? || prod.Filling? || prod.Closing?)
    requires INFO < k < DATA && k != LENGTH
    ensures Store(r, r.wrptr + k, v).WellFormed() && Room(r, DATA)
    ensures ProducerInv(Store(r, r.wrptr + k, v), prod)
  {
    HeaderInRing(r, k);
    if !prod.Reserved? { HoldsAside(r, r.wrptr + k, v, prod.frame); }
    hide Holds;
  }

  lemma HeaderInRing(r: Pool, k: int)
    requires r.WellFormed() && 0 <= k < DATA && Room(r, DATA)
    ensures r.InRing(r.wrptr + k) && r.Off(r.wrptr + k) == r.Off(r.wrptr) + k
  {}

  lemma EndFrameInv(r: Pool, q: seq<Packet>, d: int, f: seq<int>, n: int)
    requires Chain(r, q) && ProducerInv(r, Filling(d, f)) && 4 * (|f| - 1) <= n < 4 * |f|
    ensures var r' := Store(r, r.wrptr + LENGTH, n); Chain(r', q) && ProducerInv(r', Closing(d, f, n))
  {
    StoreAside(r, q, r.wrptr + LENGTH, n, f);
  }

  lemma StoreTailInv(r: Pool, q: seq<Packet>, d: int, f: seq<int>, n: int, w: int)
    requires Chain(r, q) && ProducerInv(r, Closing(d, f, n)) && d != r.rdptr
    ensures Chain(Store(r, d, w), q) && ProducerInv(Store(r, d, w), Tailed(d, f, n))
  {
    OffOfPointer(r, d, f);
    OffOfWord(r, r.wrptr, DATA + |f|);
    StoreAside(r, q, d, w, f);
  }

  lemma SetOwnStep(s: State, k: int, v: int)
    requires Inv(s) && Enabled(s, SetOwn(k, v))
    ensures Inv(Step(s, SetOwn(k, v))) && Step(s, SetOwn(k, v)).fifo == s.fifo
  {
    ChainFormed(s.pool, s.fifo);
    SetOwnInv(s.pool, s.fifo, s.prod, k, v);
    hide Chain, ProducerInv;
  }

  lemma EndFrameStep(s: State, t: int)
    requires Inv(s) && Enabled(s, EndFrame(t))
    ensures Inv(Step(s, EndFrame(t))) && Step(s, EndFrame(t)).fifo == s.fifo
  {
    var r, d, f := s.pool, s.prod.dptr, s.prod.frame;
    var n := 4 * (|f| - 1) + t;
    assert Step(s, EndFrame(t)) == State(Store(r, r.wrptr + LENGTH, n), Closing(d, f, n), s.freer, s.fifo);
    assert |f| >= 6 && s.prod == Filling(d, f) && 4 * (|f| - 1) <= n < 4 * |f|;
    hide Chain, ProducerInv, Step, Enabled;
    EndFrameInv(r, s.fifo, d, f, n);
  }

  lemma StoreTailStep(s: State, w: int)
    requires Inv(s) && Enabled(s, StoreTail(w))
    ensures Inv(Step(s, StoreTail(w))) && Step(s, StoreTail(w)).fifo == s.fifo
  {
    ChainFormed(s.pool, s.fifo);
    if s.prod.dptr != s.pool.rdptr {
      StoreTailInv(s.pool, s.fifo, s.prod.dptr, s.prod.frame, s.prod.length, w);
      hide Chain, ProducerInv;
    } else {
      hide Chain;
    }
  }

  lemma DecideStep(s: State)
    requires Inv(s) && Enabled(s, Decide)
    ensures Inv(Step(s, Decide)) && Step(s, Decide).fifo == s.fifo
  {
    var r, d, f, n := s.pool, s.prod.dptr, s.prod.frame, s.prod.length;
    assert s.prod == Tailed(d, f, n);
    if !(NearEnd(r, d) && r.atStart) {
      assert Step(s, Decide) == State(Store(r, r.wrptr + STAGE, 0), Linking(if NearEnd(r, d) then START else d, f, n),
                                      s.freer, s.fifo);
      hide Chain, ProducerInv, Step, Enabled;
      DecideInv(r, s.fifo, d, f, n);
    } else {
      hide Chain;
    }
  }

  /** End of frame, up to the wrap decision of mii_commit. */
  lemma CloseStep(s: State, a: Action)
    requires Inv(s) && Enabled(s, a) && (a.SetOwn? || a.EndFrame? || a.StoreTail? || a.Decide?)
    ensures Inv(Step(s, a)) && Step(s, a).fifo == s.fifo
  {
    hide *;
    match a
    case SetOwn(k, v) => SetOwnStep(s, k, v);
    case EndFrame(t) => EndFrameStep(s, t);
    case StoreTail(w) => StoreTailStep(s, w);
    case Decide => DecideStep(s);
  }

  lemma StoreNextStep(s: State)
    requires Inv(s) && Enabled(s, StoreNext)
    ensures Inv(Step(s, StoreNext)) && Step(s, StoreNext).fifo == s.fifo
  {
    var r := s.pool;
    ChainFormed(r, s.fifo);
    HeaderInRing(r, 0);
    hide Chain, Holds;
    StoreAside(r, s.fifo, r.wrptr, s.prod.endp, s.prod.frame);
  }

  lemma StoreWrptrStep(s: State)
    requires Inv(s) && Enabled(s, StoreWrptr)
    ensures Inv(Step(s, StoreWrptr))
    ensures Step(s, StoreWrptr).fifo
            == s.fifo + [Packet(s.pool.wrptr, s.prod.frame, s.prod.length, false, false)]
  {
    var r, q, s' := s.pool, s.fifo, Step(s, StoreWrptr);
    Publish(r, q, Packet(r.wrptr, s.prod.frame, s.prod.length, false, false), s.prod.endp);
    hide Chain, Placed;
    FreerKeeps(r, s'.pool, s.freer, q, s'.fifo);
  }

  lemma CommitStep(s: State, a: Action)
    requires Inv(s) && Enabled(s, a) && (a.StoreNext? || a.StoreWrptr?)
    ensures Inv(Step(s, a))
    ensures Step(s, a).fifo == if a.StoreNext? then s.fifo
                               else s.fifo + [Packet(s.pool.wrptr, s.prod.frame, s.prod.length, false, false)]
  {
    hide *;
    if a.StoreNext? { StoreNextStep(s); } else { StoreWrptrStep(s); }
  }

  lemma AdvanceStep(r: Pool, q: seq<Packet>, prod: Producer)
    requires Chain(r, q) && |q| > 0 && ProducerInv(r, prod)
    ensures Chain(Advanced(r), q[1..]) && ProducerInv(Advanced(r), prod)
    ensures q[0].addr == r.rdptr && Advanced(r).rdptr == Node(r, q, 1)
  {
    Advance(r, q);
    OffAfterAdvance(r, q, r.wrptr);
    forall x | r.InRing(x) && r.Off(r.wrptr) <= r.Off(x)
      ensures Advanced(r).Off(x) == r.Off(x) - r.Off(Node(r, q, 1))
    {
      OffAfterAdvance(r, q, x);
    }
    ProducerKeeps(r, Advanced(r), prod, r.Off(Node(r, q, 1)));
  }

  lemma MarkIsUpdate(r: Pool, q: seq<Packet>, i: nat)
    requires Ordered(r, q) && i < |q|
    ensures Mark(q, q[i].addr) == q[i := q[i].(freed := true)]
  {}

  lemma MarkStep(r: Pool, q: seq<Packet>, prod: Producer, i: nat)
    requires Chain(r, q) && ProducerInv(r, prod) && i < |q| && !q[i].freed
    ensures 0 <= q[i].addr < |r.mem|
    ensures Chain(Negated(r, q[i].addr), Mark(q, q[i].addr)) && ProducerInv(Negated(r, q[i].addr), prod)
  {
    MarkFreed(r, q, i);
    MarkIsUpdate(r, q, i);
    hide Chain, ProducerInv;
    StoreRecord(r, q, i, 0, -r.mem[q[i].addr], prod);
    assert Negated(r, q[i].addr) == Store(r, q[i].addr + 0, -r.mem[q[i].addr]);
  }

  lemma FreeHeadStep(s: State)
    requires Inv(s) && s.freer.AtHead?
    ensures Inv(Step(s, FreeHead))
    // a record is dropped only if its owner freed it: it is marked, or it is the one being freed
    ensures s.freer.h == s.pool.rdptr ==>
              && |s.fifo| > 0 && s.fifo[0].addr == s.freer.h
              && (s.fifo[0].freed || s.freer.first)
              && Step(s, FreeHead).fifo == s.fifo[1..]
    ensures s.freer.h != s.pool.rdptr ==> Step(s, FreeHead).fifo == Mark(s.fifo, s.freer.h)
  {
    var r, q, h := s.pool, s.fifo, s.freer.h;
    if h == r.rdptr {
      assert |q| > 0;
      AdvanceStep(r, q, s.prod);
      assert Step(s, FreeHead).pool == Advanced(r);
    } else {
      var i :| 0 <= i < |q| && q[i].addr == h && !q[i].freed;
      MarkStep(r, q, s.prod, i);
      assert Step(s, FreeHead).pool == Negated(r, h);
      assert q[0].addr == r.rdptr;
    }
  }

  lemma FreeStep(s: State, a: Action)
    requires Inv(s) && Enabled(s, a)
    requires a.CallFree? || a.FreeHead? || a.FreeWrptr? || a.FreeNext?
    ensures Inv(Step(s, a))
  {
    var r, q := s.pool, s.fifo;
    match a
    case CallFree(_) =>
    case FreeHead => FreeHeadStep(s);
    case FreeWrptr => EmptyIffPointersMeet(r, q);
    case FreeNext => assert RecordAt(r, q, 0);
  }

  lemma UsableAt(r: Pool, q: seq<Packet>, i: nat)
    requires Chain(r, q) && i < |q|
    ensures START <= q[i].addr && q[i].addr + DATA <= |r.mem|
  {
    assert r.Usable(q[i].addr);
  }

  lemma SetStageStep(s: State, i: nat)
    requires Inv(s) && Enabled(s, SetStage(i))
    ensures Inv(Step(s, SetStage(i)))
  {
    hide Chain, ProducerInv;
    StageWrite(s.pool, s.fifo, i);
    UsableAt(s.pool, s.fifo, i);
    StoreRecord(s.pool, s.fifo, i, STAGE, 1, s.prod);
    var s' := Step(s, SetStage(i));
    FreerKeeps(s.pool, s'.pool, s.freer, s.fifo, s'.fifo);
  }

  lemma SetHeaderStep(s: State, i: nat, k: int, v: int)
    requires Inv(s) && Enabled(s, SetHeader(i, k, v))
    ensures Inv(Step(s, SetHeader(i, k, v)))
  {
    hide Chain, ProducerInv;
    HeaderWrite(s.pool, s.fifo, i, k, v);
    UsableAt(s.pool, s.fifo, i);
    StoreRecord(s.pool, s.fifo, i, k, v, s.prod);
    FreerKeeps(s.pool, Step(s, SetHeader(i, k, v)).pool, s.freer, s.fifo, s.fifo);
  }

  /** The invariant is kept by every action in every interleaving. */
  lemma StepInv(s: State, a: Action)
    requires Inv(s) && Enabled(s, a)
    ensures Inv(Step(s, a))
  {
    match a
    case Reserve => FillStep(s, a);
    case StartFrame(_) => FillStep(s, a);
    case PollWord => FillStep(s, a);
    case StoreWord(_) => FillStep(s, a);
    case SetOwn(_, _) => CloseStep(s, a);
    case EndFrame(_) => CloseStep(s, a);
    case StoreTail(_) => CloseStep(s, a);
    case Decide => CloseStep(s, a);
    case StoreNext => CommitStep(s, a);
    case StoreWrptr => CommitStep(s, a);
    case CallFree(_) => FreeStep(s, a);
    case FreeHead => FreeStep(s, a);
    case FreeWrptr => FreeStep(s, a);
    case FreeNext => FreeStep(s, a);
    case SetStage(i) => SetStageStep(s, i);
    case SetHeader(i, k, v) => SetHeaderStep(s, i, k, v);
  }

  // ---------- what steps leave alone ----------

  lemma ApartFromFree(r: Pool, q: seq<Packet>, i: nat, k: int, x: int)
    requires Ordered(r, q) && i < |q| && 0 <= k < DATA
    requires r.InRing(x) && r.Off(r.wrptr) <= r.Off(x)
    ensures x != q[i].addr + k
  {
    assert r.Off(q[i].addr + k) == r.Off(q[i].addr) + k;
  }

  lemma ApartFromRecord(r: Pool, q: seq<Packet>, i: nat, k: int, j: nat, l: int)
    requires Ordered(r, q) && i < |q| && j < |q| && 0 <= k < DATA && 0 <= l < DATA && (i != j || k != l)
    ensures q[j].addr + l != q[i].addr + k
  {
    assert r.Off(q[j].addr + l) == r.Off(q[j].addr) + l;
    assert r.Off(q[i].addr + k) == r.Off(q[i].addr) + k;
  }

  lemma {:induction false} StartFrameKeeps(r: Pool, q: seq<Packet>, ws: seq<int>, n: nat, i: nat, k: int)
    requires Ordered(r, q) && |ws| == 6 && n <= 6 && Room(r, MIN_USAGE) && i < |q| && 0 < k < DATA
    ensures Load(StoreAll(r, r.wrptr + DATA, ws[..n]), q[i].addr + k) == Load(r, q[i].addr + k)
  {
    if n > 0 {
      StartWord(r, r, n - 1);
      ApartFromFree(r, q, i, k, r.wrptr + DATA + n - 1);
      hide Ordered, Room;
      StartFrameKeeps(r, q, ws, n - 1, i, k);
      assert ws[..n][..n - 1] == ws[..n - 1];
    }
  }

  /** The address an action stores to, when it stores one word. */
  function Target(s: State, a: Action): int {
    match a
    case Reserve => if Refused(s.pool) then 0 else s.pool.wrptr + INFO
    case StoreWord(_) => if s.prod.Clear? then s.prod.dptr else 0
    case SetOwn(k, _) => s.pool.wrptr + k
    case EndFrame(_) => s.pool.wrptr + LENGTH
    case StoreTail(_) => if s.prod.Closing? then s.prod.dptr else 0
    case Decide => s.pool.wrptr + STAGE
    case StoreNext => s.pool.wrptr
    case FreeHead => if s.freer.AtHead? then s.freer.h else 0
    case SetStage(i) => if i < |s.fifo| then s.fifo[i].addr + STAGE else 0
    case SetHeader(i, k, _) => if i < |s.fifo| then s.fifo[i].addr + k else 0
    case _ => 0
  }

  lemma TargetOnly(s: State, a: Action, y: int)
    requires Inv(s) && Enabled(s, a) && !a.StartFrame? && y != Target(s, a)
    ensures Load(Step(s, a).pool, y) == Load(s.pool, y)
  {}

  ghost function LiveIndex(q: seq<Packet>, a: int): (i: nat)
    requires IsLive(q, a)
    ensures i < |q| && q[i].addr == a && !q[i].freed
  {
    var i :| 0 <= i < |q| && q[i].addr == a && !q[i].freed; i
  }

  lemma ProducerTarget(s: State, a: Action)
    requires Inv(s) && Enabled(s, a)
    requires a.StoreWord? || a.SetOwn? || a.EndFrame? || a.Decide? || a.StoreNext?
             || (a.StoreTail? && s.prod.dptr != s.pool.rdptr) || (a.Reserve? && !Refused(s.pool))
    ensures s.pool.InRing(Target(s, a)) && s.pool.Off(s.pool.wrptr) <= s.pool.Off(Target(s, a))
  {
    assert s.pool.Usable(s.pool.wrptr);
    if a.StoreWord? || a.StoreTail? {
      OffOfPointer(s.pool, s.prod.dptr, s.prod.frame);
      OffOfWord(s.pool, s.pool.wrptr, DATA + |s.prod.frame|);
    }
  }

  lemma TargetApart(s: State, a: Action, i: nat, k: int)
    requires Inv(s) && Enabled(s, a) && i < |s.fifo| && 0 < k < DATA && k != LENGTH && k != STAGE
    requires !(a.SetHeader? && a.index == i && a.offset == k)
    requires !a.StartFrame? && !(a.StoreTail? && s.prod.dptr == s.pool.rdptr)
    ensures Target(s, a) != s.fifo[i].addr + k
  {
    var r, q := s.pool, s.fifo;
    if a.FreeHead? {
      var j := if s.freer.h == r.rdptr then 0 else LiveIndex(q, s.freer.h);
      ApartFromRecord(r, q, i, k, j, 0);
    } else if a.SetStage? {
      ApartFromRecord(r, q, i, k, a.index, STAGE);
    } else if a.SetHeader? {
      ApartFromRecord(r, q, i, k, a.index, a.offset);
    } else if Target(s, a) == 0 && !a.StoreWord? && !a.StoreTail? && !a.StoreNext? {
      assert r.Usable(q[i].addr);
    } else {
      ProducerTarget(s, a);
      ApartFromFree(r, q, i, k, Target(s, a));
    }
  }

  /** No action but its own write changes the header words of a committed record. */
  lemma HeaderWordKept(s: State, a: Action, i: nat, k: int)
    requires Inv(s) && Enabled(s, a) && i < |s.fifo| && 0 < k < DATA && k != LENGTH && k != STAGE
    requires !(a.SetHeader? && a.index == i && a.offset == k)
    ensures Load(Step(s, a).pool, s.fifo[i].addr + k) == Load(s.pool, s.fifo[i].addr + k)
  {
    if a.StartFrame? {
      StartFrameKeeps(s.pool, s.fifo, a.words, 6, i, k);
      assert a.words[..6] == a.words;
    } else if !(a.StoreTail? && s.prod.dptr == s.pool.rdptr) {
      TargetApart(s, a, i, k);
      TargetOnly(s, a, s.fifo[i].addr + k);
    }
  }

  /** What mii_free at the head of the queue does to the queue. */
  lemma FreeHeadView(s: State)
    requires Inv(s) && s.freer.AtHead?
    ensures Step(s, FreeHead).pool.wrptr == s.pool.wrptr && !Step(s, FreeHead).freer.AtHead?
    ensures s.freer.h == s.pool.rdptr ==>
              && |s.fifo| > 0 && Step(s, FreeHead).fifo == s.fifo[1..]
              && s.fifo[0].addr == s.freer.h && (s.fifo[0].freed || s.freer.first)
              && forall i :: 0 < i < |s.fifo| ==> s.fifo[i].addr != s.freer.h
    ensures s.freer.h != s.pool.rdptr ==>
              s.freer.first && Step(s, FreeHead).fifo == Mark(s.fifo, s.freer.h)
  {
    FreeHeadStep(s);
    hide ProducerInv;
    if s.freer.h == s.pool.rdptr {
      forall i | 0 < i < |s.fifo|
        ensures s.fifo[i].addr != s.freer.h
      {
        ApartFromRecord(s.pool, s.fifo, i, 0, 0, 0);
      }
    }
  }
}
