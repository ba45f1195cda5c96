/** The receive path as one system: the ring with its producer, filter and mii_free, the
    receive server, and any number of clients running at their own speed.  The server is one
    thread: while it is inside mii_free it does nothing else.  Its select is modelled without
    the ordering pragma, so a frame may be taken although a command is waiting. */
module RxSystem {
  import opened RingPool
  import opened Bytes
  import opened Links
  import opened Protocol
  import P = PoolSteps
  import Stream

  datatype FrameRecord = FrameRecord(data: seq<int>, length: int)

  /** base, taken, frames and freeCalls are history: frames committed so far, how many were
      reclaimed (base), how many of the unreclaimed ones the server has taken, and the
      numbers of the frames passed to mii_free. */
  datatype System = System(ring: P.State, cursor: int, who: nat, phase: Phase, clients: seq<Client>,
                           base: nat, taken: nat, frames: seq<FrameRecord>, freeCalls: seq<nat>)

  datatype Event =
    | Memory(act: P.Action)      // producer, filter, and the inside of mii_free
    | TakeFrame(result: bv32)    // process_received_frame, with the filter result it loads
    | Start(j: nat, req: Request)
    | WakeUp(j: nat)
    | Acked(j: nat)
    | Granted(j: nat)
    | ServeOp(j: nat)
    | ServeCmd(j: nat)
    | Meet(j: nat)
    | Finished(j: nat)
    | LinkChange

  /** A word as the 32 bits it stands for. */
  function Word(w: int): bv32 { (w % TWO32) as bv32 }

  function PhaseOf(s: System, j: nat): Phase { if s.who == j then s.phase else Away }

  function InitClient(fifo: seq<int>): Client {
    Client(InitLink(fifo), 0, Port(0, [], AtRest), Log([], 0, [], 0, 0))
  }

  ghost predicate IsInit(s: System) {
    && (exists words: seq<int> :: |words| > START + MIN_USAGE && s.ring == P.Init(words))
    && s.cursor == s.ring.pool.rdptr && s.phase == Away
    && (forall j :: 0 <= j < |s.clients| ==>
          |s.clients[j].link.fifo| == SLOTS && s.clients[j] == InitClient(s.clients[j].link.fifo))
    && s.base == 0 && s.taken == 0 && s.frames == [] && s.freeCalls == []
  }

  // ---------- the steps ----------

  predicate Enabled(s: System, e: Event) {
    var r := s.ring.pool;
    var idle := s.ring.freer.NotFreeing?;
    match e
    case Memory(a) =>
      P.Enabled(s.ring, a) && !a.CallFree? && (a.SetHeader? ==> a.index >= s.taken && a.offset != TCOUNT)
    case TakeFrame(result) =>
      && s.phase.Away? && idle && s.cursor != r.wrptr && P.Load(r, s.cursor + STAGE) == 1
      && result == Word(P.Load(r, s.cursor + FILTER))
    case Start(j, req) => j < |s.clients| && s.clients[j].port.pc.AtRest?
    case WakeUp(j) => j < |s.clients| && s.clients[j].port.pc.Waiting? && s.clients[j].port.tokens > 0
    case Acked(j) => j < |s.clients| && s.clients[j].port.pc.AwaitAck? && s.clients[j].port.tokens > 0
    case Granted(j) => j < |s.clients| && s.clients[j].port.pc.AwaitGrant? && s.clients[j].port.tokens > 0
    case ServeOp(j) =>
      j < |s.clients| && s.phase.Away? && idle &&
      s.clients[j].port.toServer != [] && s.clients[j].port.toServer[0].Op?
    case ServeCmd(j) =>
      j < |s.clients| && idle && PhaseOf(s, j).AwaitCmd? &&
      s.clients[j].port.toServer != [] && s.clients[j].port.toServer[0].Cmd?
    case Meet(j) =>
      j < |s.clients| && idle && PhaseOf(s, j).Meeting? && s.clients[j].port.pc.Exchanging? && s.clients[j].link.Valid()
    case Finished(j) =>
      j < |s.clients| && idle && (PhaseOf(s, j).Popping? || PhaseOf(s, j).Deciding? || PhaseOf(s, j).Renotifying?)
    case LinkChange => s.phase.Away? && idle
  }

  /** No link-status notification is due for a client that subscribed and is un-notified. */
  predicate Quiet(s: System) {
    forall j :: 0 <= j < |s.clients| && s.clients[j].link.wants != 0 ==> s.clients[j].link.notified
  }

  function OfferAll(cs: seq<Client>, result: bv32, buf: int, n: nat): (r: seq<Client>)
    ensures |r| == |cs|
  {
    seq(|cs|, j requires 0 <= j < |cs| =>
      if cs[j].link.Valid() then Offer(cs[j], result, buf, n) else cs[j])
  }

  /** tcount after the loop of process_received_frame. */
  function Accepting(cs: seq<Client>, result: bv32): nat {
    if cs == [] then 0
    else Accepting(cs[..|cs| - 1], result) + (if Takes(cs[|cs| - 1], result) then 1 else 0)
  }

  function BeginFree(ring: P.State, a: int): P.State { ring.(freer := P.AtHead(a, true)) }

  function PutWord(ring: P.State, x: int, v: int): P.State { ring.(pool := P.Store(ring.pool, x, v)) }

  function TakeStep(s: System, result: bv32): System {
    var a, n := s.cursor, s.base + s.taken;
    var tcount := Accepting(s.clients, result);
    s.(ring := if tcount == 0 then BeginFree(s.ring, a) else PutWord(s.ring, a + TCOUNT, tcount - 1),
       cursor := P.Load(s.ring.pool, a),
       clients := OfferAll(s.clients, result, a + HEADER, n),
       taken := s.taken + 1,
       freeCalls := if tcount == 0 then s.freeCalls + [n] else s.freeCalls)
  }

  function Send(r: Pool, a: int): seq<int> {
    if r.WellFormed() && r.Usable(a) then Stream.FrameWords(r, a) else []
  }

  /** Lines 431-440 for client j. */
  function MeetFrameStep(s: System, j: nat): System
    requires j < |s.clients| && s.clients[j].link.Valid()
  {
    var c := s.clients[j];
    var a := c.link.fifo[c.link.rd] - HEADER;
    var count := P.Load(s.ring.pool, a + TCOUNT);
    s.(ring := if count == 0 then BeginFree(s.ring, a) else PutWord(s.ring, a + TCOUNT, count - 1),
       phase := Popping,
       clients := s.clients[j := MeetFrame(c, Send(s.ring.pool, a)).0],
       freeCalls := if count == 0 && c.log.done < |c.log.accepted|
                    then s.freeCalls + [c.log.accepted[c.log.done]] else s.freeCalls)
  }

  function MeetStep(s: System, j: nat): System
    requires Enabled(s, Meet(j))
  {
    var c := s.clients[j];
    if !s.phase.req.Frame? then
      var (c', ph) := MeetCommand(c, s.phase.req, s.phase.renotify);
      s.(clients := s.clients[j := c'], phase := ph)
    else if c.link.wants == 2 then
      s.(clients := s.clients[j := MeetStatus(c).0], phase := Deciding)
    else if !c.link.IsEmpty() then MeetFrameStep(s, j)
    else s.(phase := Away)   // request without notification: nothing is sent
  }

  function MemoryStep(s: System, a: P.Action): System
    requires P.Enabled(s.ring, a)
  {
    var ring' := P.Step(s.ring, a);
    var drops := a.FreeHead? && s.ring.freer.h == s.ring.pool.rdptr;
    s.(ring := ring',
       base := if drops then s.base + 1 else s.base,
       taken := if drops && s.taken > 0 then s.taken - 1 else s.taken,
       frames := if a.StoreWrptr? then s.frames + [FrameRecord(s.ring.prod.frame, s.ring.prod.length)] else s.frames)
  }

  function Step(s: System, e: Event): System
    requires Enabled(s, e)
  {
    match e
    case Memory(a) => MemoryStep(s, a)
    case TakeFrame(result) => TakeStep(s, result)
    case Start(j, req) => s.(clients := s.clients[j := Begin(s.clients[j], req)])
    case WakeUp(j) => s.(clients := s.clients[j := Wake(s.clients[j])])
    case Acked(j) => s.(clients := s.clients[j := TakeAck(s.clients[j])])
    case Granted(j) => s.(clients := s.clients[j := TakeGrant(s.clients[j])])
    case ServeOp(j) =>
      var (c, ph) := AcceptOp(s.clients[j]);
      s.(clients := s.clients[j := c], who := j, phase := ph)
    case ServeCmd(j) =>
      var (c, ph) := AcceptCmd(s.clients[j], s.phase.renotify);
      s.(clients := s.clients[j := c], phase := ph)
    case Meet(j) => MeetStep(s, j)
    case Finished(j) => s.(clients := s.clients[j := Finish(s.clients[j], s.phase)], phase := Away)
    case LinkChange =>
      s.(clients := seq(|s.clients|, j requires 0 <= j < |s.clients| => StatusChange(s.clients[j])))
  }

  // ---------- the invariant ----------

  /** Frames accepted for a client and not yet handed to it. */
  function Pending(c: Client): seq<nat> {
    if c.log.done <= |c.log.accepted| then c.log.accepted[c.log.done..] else []
  }

  predicate Holding(c: Client, n: nat) { n in Pending(c) }

  /** How many clients' queues hold frame number n. */
  function Holders(cs: seq<Client>, n: nat): nat {
    if cs == [] then 0
    else Holders(cs[..|cs| - 1], n) + (if Holding(cs[|cs| - 1], n) then 1 else 0)
  }

  /** Slots not yet served; the head slot is stale between sending and popping. */
  function Live(c: Client, ph: Phase): seq<int>
    requires c.link.Valid()
  {
    if ph.Popping? && |c.link.Queue()| > 0 then c.link.Queue()[1..] else c.link.Queue()
  }

  /** Frame number n is taken, unreclaimed, and sits in buffer buf. */
  predicate At(s: System, n: nat, buf: int)
    requires s.base + s.taken <= s.base + |s.ring.fifo|
  {
    s.base <= n < s.base + s.taken && buf == s.ring.fifo[n - s.base].addr + HEADER
  }

  /** Passed to mii_free. */
  predicate Released(s: System, i: nat)
    requires i < |s.ring.fifo|
  {
    s.ring.fifo[i].freed || s.ring.freer == P.AtHead(s.ring.fifo[i].addr, true)
  }

  predicate ClientLedger(s: System, c: Client, ph: Phase)
    requires s.taken <= |s.ring.fifo|
  {
    && c.link.Valid()
    && c.log.done <= |c.log.accepted|
    && |Live(c, ph)| == |Pending(c)|
    && (forall k :: 0 <= k < |Pending(c)| ==> At(s, Pending(c)[k], Live(c, ph)[k]))
    && (forall k, l :: 0 <= k < l < |c.log.accepted| ==> c.log.accepted[k] < c.log.accepted[l])
    && (forall k :: 0 <= k < |c.log.accepted| ==> c.log.accepted[k] < s.base + s.taken)
  }

  /** Conservation and integrity of what a client received. */
  predicate Delivery(s: System, c: Client) {
    && c.log.matched == |c.log.accepted| + c.log.dropped
    && c.link.dropped == c.log.dropped % TWO32
    && |c.log.got| == c.log.done <= |c.log.accepted|
    && forall k :: 0 <= k < c.log.done ==>
         && c.log.accepted[k] < |s.frames|
         && Stream.CarriesFrame(c.log.got[k], s.frames[c.log.accepted[k]].data, s.frames[c.log.accepted[k]].length)
  }

  /** tcount + 1 is the number of slots holding the frame, until it is passed to mii_free. */
  predicate Balanced(s: System, i: nat)
    requires i < |s.ring.fifo|
  {
    var count := P.Load(s.ring.pool, s.ring.fifo[i].addr + TCOUNT);
    if Released(s, i) then Holders(s.clients, s.base + i) == 0
    else count >= 0 && Holders(s.clients, s.base + i) == count + 1
  }

  /** The server's private cursor and the history of frames. */
  predicate CursorInv(s: System) {
    var q := s.ring.fifo;
    && s.taken <= |q|
    && s.cursor == Node(s.ring.pool, q, s.taken)
    && |s.frames| == s.base + |q|
    && (forall i :: 0 <= i < |q| ==> s.frames[s.base + i] == FrameRecord(q[i].data, q[i].length))
    && (forall i :: 0 <= i < s.taken ==> q[i].staged)
    && (forall i :: s.taken <= i < |q| ==> !Released(s, i))
  }

  /** mii_free is called at most once per frame, and exactly for the released ones. */
  ghost predicate FreeOnce(s: System)
    requires s.taken <= |s.ring.fifo|
  {
    && (forall k, l :: 0 <= k < l < |s.freeCalls| ==> s.freeCalls[k] != s.freeCalls[l])
    && forall n: nat :: n in s.freeCalls <==> n < s.base || (n < s.base + s.taken && Released(s, n - s.base))
  }

  ghost predicate Ledger(s: System) {
    && CursorInv(s)
    && FreeOnce(s)
    && (forall i :: 0 <= i < s.taken ==> Balanced(s, i))
    && (forall j :: 0 <= j < |s.clients| ==> ClientLedger(s, s.clients[j], PhaseOf(s, j)))
    && (forall j :: 0 <= j < |s.clients| ==> Delivery(s, s.clients[j]))
  }

  predicate Tokens(s: System) {
    && (s.phase.Away? || s.who < |s.clients|)
    && forall j :: 0 <= j < |s.clients| ==> TokenInv(s.clients[j], PhaseOf(s, j))
  }

  ghost predicate Inv(s: System) { P.Inv(s.ring) && Tokens(s) && Ledger(s) }
}
