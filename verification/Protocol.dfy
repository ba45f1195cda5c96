/** One client of the receive server: its side of the channel (ethernet_unified_get_data
    and send_cmd), the server's side (service_link_cmd and the select loop), and the control
    tokens between them.  A token is an XS1_CT_END on its way to the client; it is either a
    notification or an acknowledgement, and nothing on the wire tells them apart. */
module Protocol {
  import opened Bytes
  import opened Links

  datatype Request =
    | Frame(offset2: bool)         // ETHERNET_RX_FRAME_REQ, ETHERNET_RX_FRAME_REQ_OFFSET2
    | SetFilter(mask: bv32)
    | SetDrop(drop: bool)
    | SetQueue(size: int)
    | SetStatus(wants: int)
    | Query                        // the counter and timer requests

  datatype Msg = Op(isCmd: bool) | Cmd(req: Request)

  datatype ClientPc =
    | AtRest                       // between operations
    | Waiting(req: Request)        // ethernet_unified_get_data, first inct
    | AwaitAck(req: Request)       // operation byte sent
    | AwaitGrant(req: Request)     // command word sent
    | Exchanging(req: Request)     // ready for the data rendezvous

  datatype Port = Port(tokens: nat, toServer: seq<Msg>, pc: ClientPc)

  /** History: numbers of the frames accepted for this client, how many of them were
      delivered, the words delivered, and the counts of matching and dropped frames. */
  datatype Log = Log(accepted: seq<nat>, done: nat, got: seq<seq<int>>, matched: nat, dropped: nat)

  datatype Client = Client(link: Link, mask: bv32, port: Port, log: Log)

  /** What the server is doing with a client. */
  datatype Phase =
    | Away
    | AwaitCmd(renotify: bool)             // operation byte taken
    | Meeting(req: Request, renotify: bool) // command acknowledged
    | Popping                              // frame sent, slot not yet removed
    | Deciding                             // status packet sent
    | Renotifying

  // ---------- client steps ----------

  function Begin(c: Client, req: Request): Client {
    if req.Frame? then c.(port := c.port.(pc := Waiting(req)))
    else c.(port := c.port.(toServer := c.port.toServer + [Op(true)], pc := AwaitAck(req)))
  }

  function Wake(c: Client): Client
    requires c.port.pc.Waiting? && c.port.tokens > 0
  {
    c.(port := Port(c.port.tokens - 1, c.port.toServer + [Op(false)], AwaitAck(c.port.pc.req)))
  }

  function TakeAck(c: Client): Client
    requires c.port.pc.AwaitAck? && c.port.tokens > 0
  {
    c.(port := Port(c.port.tokens - 1, c.port.toServer + [Cmd(c.port.pc.req)], AwaitGrant(c.port.pc.req)))
  }

  function TakeGrant(c: Client): Client
    requires c.port.pc.AwaitGrant? && c.port.tokens > 0
  {
    c.(port := Port(c.port.tokens - 1, c.port.toServer, Exchanging(c.port.pc.req)))
  }

  // ---------- server steps ----------

  function Notify(c: Client): Client { c.(port := c.port.(tokens := c.port.tokens + 1)) }

  /** service_link_cmd, lines 72-80. */
  function AcceptOp(c: Client): (Client, Phase)
    requires c.port.toServer != [] && c.port.toServer[0].Op?
  {
    var c1 := c.(port := c.port.(toServer := c.port.toServer[1..]));
    var acks := !c.link.notified || !c.port.toServer[0].isCmd;
    (if acks then Notify(c1) else c1, AwaitCmd(c.link.notified))
  }

  /** Lines 82-94. */
  function AcceptCmd(c: Client, renotify: bool): (Client, Phase)
    requires c.port.toServer != [] && c.port.toServer[0].Cmd?
  {
    var req := c.port.toServer[0].req;
    (Notify(c.(port := c.port.(toServer := c.port.toServer[1..]))),
     Meeting(req, renotify && !req.Frame?))
  }

  /** Lines 95-155: the rendezvous of a request other than a frame request. */
  function Apply(c: Client, req: Request): Client {
    match req
    case SetFilter(m) => c.(mask := m)
    case SetDrop(d) => c.(link := c.link.(maxQueue := if d then 1 else SLOTS))
    case SetQueue(n) => c.(link := c.link.(maxQueue := n))
    case SetStatus(w) => c.(link := c.link.(wants := w))
    case _ => c
  }

  function MeetCommand(c: Client, req: Request, renotify: bool): (Client, Phase) {
    (Apply(c, req).(port := c.port.(pc := AtRest)), if renotify then Renotifying else Away)
  }

  /** Lines 417-427: a status packet goes out instead of a frame. */
  function MeetStatus(c: Client): (Client, Phase) {
    (c.(link := c.link.(wants := 1), port := c.port.(pc := AtRest)), Deciding)
  }

  /** Lines 431-440: the oldest frame goes out. */
  function MeetFrame(c: Client, words: seq<int>): (Client, Phase) {
    (c.(port := c.port.(pc := AtRest), log := c.log.(done := c.log.done + 1, got := c.log.got + [words])),
     Popping)
  }

  /** Lines 442-449, 422-427 and 154-155. */
  function Finish(c: Client, ph: Phase): Client {
    if ph.Renotifying? then Notify(c)
    else
      var c1 := if ph.Popping? then c.(link := c.link.Pop()) else c;
      if !c1.link.IsEmpty() then Notify(c1) else c1.(link := c1.link.(notified := false))
  }

  /** custom_filter_mask[i] & result */
  predicate Hits(mask: bv32, result: bv32) { mask & result != 0 }

  /** Bit k of a word. */
  predicate BitSet(v: bv32, k: bv5) { (v >> k) & 1 == 1 }

  lemma BitOfAnd(a: bv32, b: bv32, k: bv5)
    ensures BitSet(a & b, k) <==> BitSet(a, k) && BitSet(b, k)
    ensures !BitSet(0, k)
  {}

  lemma SomeBit(x: bv32)
    requires x != 0
    ensures exists k: bv5 :: BitSet(x, k)
  {
    assert BitSet(x, 0) || BitSet(x, 1) || BitSet(x, 2) || BitSet(x, 3) || BitSet(x, 4) || BitSet(x, 5)
      || BitSet(x, 6) || BitSet(x, 7) || BitSet(x, 8) || BitSet(x, 9) || BitSet(x, 10) || BitSet(x, 11)
      || BitSet(x, 12) || BitSet(x, 13) || BitSet(x, 14) || BitSet(x, 15) || BitSet(x, 16) || BitSet(x, 17)
      || BitSet(x, 18) || BitSet(x, 19) || BitSet(x, 20) || BitSet(x, 21) || BitSet(x, 22) || BitSet(x, 23)
      || BitSet(x, 24) || BitSet(x, 25) || BitSet(x, 26) || BitSet(x, 27) || BitSet(x, 28) || BitSet(x, 29)
      || BitSet(x, 30) || BitSet(x, 31);
  }

  /** A frame matches when some bit is set both in the client's mask and in its result. */
  lemma HitsIff(mask: bv32, result: bv32)
    ensures Hits(mask, result) <==> exists k: bv5 :: BitSet(mask, k) && BitSet(result, k)
  {
    var both := mask & result;
    assert Hits(mask, result) <==> both != 0;
    if both != 0 { SomeBit(both); }
    hide BitSet, Hits;
    forall k: bv5
      ensures BitSet(both, k) <==> BitSet(mask, k) && BitSet(result, k)
      ensures !BitSet(0, k)
    {
      BitOfAnd(mask, result, k);
    }
  }

  predicate Matches(c: Client, result: bv32) { Hits(c.mask, result) }

  predicate Takes(c: Client, result: bv32) { Matches(c, result) && c.link.Accepts() }

  /** Lines 288-321: frame number n, in buffer buf, is offered to the client. */
  function Offer(c: Client, result: bv32, buf: int, n: nat): Client
    requires c.link.Valid()
  {
    if !Matches(c, result) then c
    else if c.link.Accepts() then
      var c1 := c.(link := c.link.Push(buf),
                   log := c.log.(accepted := c.log.accepted + [n], matched := c.log.matched + 1));
      if !c.link.notified then Notify(c1) else c1
    else c.(link := c.link.Drop(), log := c.log.(matched := c.log.matched + 1, dropped := c.log.dropped + 1))
  }

  /** Lines 483-487: the link status changed. */
  function StatusChange(c: Client): Client {
    if c.link.wants == 0 then c
    else
      var c1 := c.(link := c.link.(wants := 2));
      if !c.link.notified then Notify(c1) else c1
  }

  // ---------- the token invariant ----------

  /** Where the tokens and messages are, for each pair of client and server position.
      Between operations the tokens in flight equal `notified`, and `notified` says whether
      the queue holds a frame (no lost wake-up). */
  predicate TokenInv(c: Client, ph: Phase) {
    var p, n := c.port, c.link.notified;
    && c.link.Valid()
    && (n <==> !c.link.IsEmpty())
    && match ph {
      case Away =>
        (match p.pc
         case AtRest => p.toServer == [] && p.tokens == (if n then 1 else 0)
         case Waiting(req) => req.Frame? && p.toServer == [] && p.tokens == (if n then 1 else 0)
         case AwaitAck(req) =>
           && p.toServer == [Op(!req.Frame?)]
           && if req.Frame? then n && p.tokens == 0 else p.tokens == (if n then 1 else 0)
         case AwaitGrant(req) => !req.Frame? && n && p.tokens == 0 && p.toServer == [Op(true), Cmd(req)]
         case Exchanging(_) => false)
      case AwaitCmd(renotify) =>
        renotify == n &&
        (match p.pc
         case AwaitAck(req) => (req.Frame? ==> n) && p.toServer == [] && p.tokens == 1
         case AwaitGrant(req) => (req.Frame? ==> n) && p.toServer == [Cmd(req)] && p.tokens == 0
         case _ => false)
      case Meeting(req, renotify) =>
        (req.Frame? ==> n) && renotify == (n && !req.Frame?) && p.toServer == [] &&
        (match p.pc
         case AwaitGrant(req') => req' == req && p.tokens == 1
         case Exchanging(req') => req' == req && p.tokens == 0
         case _ => false)
      case _ =>
        n && p.tokens == 0 &&
        (match p.pc
         case AtRest => p.toServer == []
         case Waiting(req) => req.Frame? && p.toServer == []
         case AwaitAck(req) => !req.Frame? && p.toServer == [Op(true)]
         case _ => false)
    }
  }

  lemma ClientStepTokens(c: Client, ph: Phase, req: Request)
    requires TokenInv(c, ph)
    ensures c.port.pc.AtRest? ==> TokenInv(Begin(c, req), ph)
    ensures c.port.pc.Waiting? && c.port.tokens > 0 ==> TokenInv(Wake(c), ph)
    ensures c.port.pc.AwaitAck? && c.port.tokens > 0 ==> TokenInv(TakeAck(c), ph)
    ensures c.port.pc.AwaitGrant? && c.port.tokens > 0 ==> TokenInv(TakeGrant(c), ph)
  {}

  lemma ServerStepTokens(c: Client, ph: Phase)
    requires TokenInv(c, ph)
    ensures ph.Away? && c.port.toServer != [] ==>
              c.port.toServer[0].Op? && TokenInv(AcceptOp(c).0, AcceptOp(c).1)
    ensures ph.AwaitCmd? && c.port.toServer != [] ==>
              c.port.toServer[0].Cmd? && TokenInv(AcceptCmd(c, ph.renotify).0, AcceptCmd(c, ph.renotify).1)
    ensures ph.Popping? || ph.Deciding? || ph.Renotifying? ==> TokenInv(Finish(c, ph), Away)
  {
    if ph.Popping? { PopRemovesOldest(c.link); }
  }

  /** Every data rendezvous starts with no stray token or message queued, the two sides
      agree on the request, and a frame request finds a frame. */
  lemma RendezvousIsClean(c: Client, ph: Phase, words: seq<int>)
    requires TokenInv(c, ph) && ph.Meeting? && c.port.pc.Exchanging?
    ensures c.port.tokens == 0 && c.port.toServer == [] && c.port.pc.req == ph.req
    ensures ph.req.Frame? ==> !c.link.IsEmpty()
    ensures !ph.req.Frame? ==>
              TokenInv(MeetCommand(c, ph.req, ph.renotify).0, MeetCommand(c, ph.req, ph.renotify).1)
    ensures ph.req.Frame? ==> TokenInv(MeetStatus(c).0, Deciding) && TokenInv(MeetFrame(c, words).0, Popping)
  {}

  /** What the offer of a frame does: it is accepted exactly if it matches while the queue is
      below the client's limit and the ring has a free slot, and dropped exactly if it matches
      and is not accepted; nothing else about the queue and the history changes. */
  lemma OfferOutcome(c: Client, result: bv32, buf: int, n: nat)
    requires c.link.Valid()
    ensures var c', hits := Offer(c, result, buf, n), Matches(c, result);
            var takes := hits && |c.link.Queue()| < c.link.maxQueue && |c.link.Queue()| < SLOTS - 1;
            && Takes(c, result) == takes
            && c'.link.Valid()
            && c'.link.Queue() == c.link.Queue() + (if takes then [buf] else [])
            && c'.link.dropped == (if hits && !takes then (c.link.dropped + 1) % TWO32 else c.link.dropped)
            && c'.log == Log(c.log.accepted + (if takes then [n] else []), c.log.done, c.log.got,
                             c.log.matched + (if hits then 1 else 0),
                             c.log.dropped + (if hits && !takes then 1 else 0))
  {
    QueueBound(c.link);
    if c.link.Accepts() { PushAppends(c.link, buf); }
  }

  lemma OfferTokens(c: Client, result: bv32, buf: int, n: nat)
    requires TokenInv(c, Away)
    ensures TokenInv(Offer(c, result, buf, n), Away)
  {
    if Takes(c, result) { PushAppends(c.link, buf); QueueBound(c.link); }
  }

  /** The status branch keeps the token invariant exactly when it does not fire for a client
      that asked for status updates and has no notification outstanding: it sends a token
      without setting `notified`. */
  lemma StatusChangeTokensIff(c: Client)
    requires TokenInv(c, Away)
    ensures TokenInv(StatusChange(c), Away) <==> (c.link.wants != 0 ==> c.link.notified)
  {}

  /** A whole command by the client and the server changes the one setting it is about, and leaves
      the channel and the flag as they were, whether the acknowledgement taken was the server's or an outstanding
      notification: a notification consumed as an acknowledgement is sent again. */
  lemma CommandRoundTrip(c: Client, req: Request)
    requires TokenInv(c, Away) && c.port.pc.AtRest? && !req.Frame?
    ensures var (c1, ph1) := AcceptOp(Begin(c, req));
            && ph1.AwaitCmd? && c1.port.pc.AwaitAck? && c1.port.tokens > 0
            && var (c2, ph2) := AcceptCmd(TakeAck(c1), ph1.renotify);
               && ph2.Meeting? && c2.port.pc.AwaitGrant? && c2.port.tokens > 0
               && var (c3, ph3) := MeetCommand(TakeGrant(c2), req, ph2.renotify);
                  var c4 := if ph3.Renotifying? then Finish(c3, ph3) else c3;
                  && c4.port == c.port && c4.log == c.log
                  && c4.mask == (if req.SetFilter? then req.mask else c.mask)
                  && c4.link == c.link.(
                       maxQueue := if req.SetQueue? then req.size
                                   else if req.SetDrop? then (if req.drop then 1 else SLOTS) else c.link.maxQueue,
                       wants := if req.SetStatus? then req.wants else c.link.wants)
    ensures c.link.notified ==>
              var d := TakeAck(Begin(c, req));         // the notification is taken first
              d.port.toServer == [Op(true), Cmd(req)] && AcceptOp(d).0.port.toServer == [Cmd(req)]
              && AcceptOp(d).0.port.tokens == 0 && AcceptOp(d).1 == AwaitCmd(true)
  {}

  /** The client's side and the server's side of a frame request up to the data rendezvous, for a
      client with a notification outstanding. */
  lemma FrameRequestMeets(c: Client, offset2: bool)
    requires TokenInv(c, Away) && c.port.pc.AtRest? && !c.link.IsEmpty()
    ensures var c0 := Begin(c, Frame(offset2));
            && c0.port.pc.Waiting? && c0.port.tokens == 1
            && var (c1, ph1) := AcceptOp(Wake(c0));
               && ph1.AwaitCmd? && c1.port.pc.AwaitAck? && c1.port.tokens == 1
               && var (c2, ph2) := AcceptCmd(TakeAck(c1), ph1.renotify);
                  && ph2 == Meeting(Frame(offset2), false) && c2.port.pc.AwaitGrant? && c2.port.tokens == 1
                  && TakeGrant(c2) == c.(port := Port(0, [], Exchanging(Frame(offset2))))
  {}

  /** A whole frame request: the oldest frame goes to the client and leaves the queue, and the
      client is notified again exactly when another one waits; or, when a status packet is due, it
      goes out once, and no frame is lost. */
  lemma FrameRoundTrip(c: Client, offset2: bool, words: seq<int>)
    requires TokenInv(c, Away) && c.port.pc.AtRest? && !c.link.IsEmpty()
    ensures var m := c.(port := Port(0, [], Exchanging(Frame(offset2))));
            var f, t := Finish(MeetFrame(m, words).0, MeetFrame(m, words).1), Finish(MeetStatus(m).0, MeetStatus(m).1);
            && f.link.Valid() && c.link.Queue() == [c.link.fifo[c.link.rd]] + f.link.Queue()
            && f.port == Port(if f.link.Queue() == [] then 0 else 1, [], AtRest)
            && (f.link.notified <==> f.link.Queue() != [])
            && f.log == c.log.(done := c.log.done + 1, got := c.log.got + [words])
            && f.mask == c.mask && f.link.maxQueue == c.link.maxQueue && f.link.wants == c.link.wants
            && t == c.(link := c.link.(wants := 1))
  {
    PopRemovesOldest(c.link);
    QueueBound(c.link.Pop());
    var m := c.(port := Port(0, [], Exchanging(Frame(offset2))));
    assert Finish(MeetFrame(m, words).0, Popping).link.Queue() == c.link.Pop().Queue();
  }

  /** What goes wrong when the status branch fires for an un-notified subscriber that is at
      rest: its token is taken for an acknowledgement, the real one is taken for the grant,
      and the grant is still queued when the data rendezvous starts. */
  lemma StatusTokenStraysIntoRendezvous(c: Client, size: int)
    requires TokenInv(c, Away) && c.port.pc.AtRest? && c.link.wants != 0 && !c.link.notified
    ensures var c1 := Begin(StatusChange(c), SetQueue(size));
            && c1.port.pc.AwaitAck? && c1.port.tokens > 0
            && var (c2, ph2) := AcceptOp(TakeAck(c1));
               && ph2.AwaitCmd? && c2.port.pc.AwaitGrant? && c2.port.tokens > 0
               && c2.port.toServer == [Cmd(SetQueue(size))]
               && var (c3, ph3) := AcceptCmd(TakeGrant(c2), ph2.renotify);
                  ph3.Meeting? && c3.port.pc.Exchanging? && c3.port.tokens == 1
  {}
}
