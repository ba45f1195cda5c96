/** The two buffer-handling parts of the receive server as imperative code over its static
    arrays: process_received_frame, and the frame-request branch of the select loop. */
module RxServer {
  import opened RingPool
  import opened Links
  import opened Protocol
  import opened RxSystem
  import opened MemPool
  import P = PoolSteps
  import Stream

  class RxServer {
    const links: array<Link>          // link_status
    const masks: array<bv32>          // custom_filter_mask
    const ports: array<Port>          // link: the channel ends
    ghost var logs: seq<Log>

    constructor (n: nat, filter: bv32, port: Port, link: Link, ghost log: Log)
      requires link.Valid()
      ensures Valid() && fresh(links) && fresh(masks) && fresh(ports)
      ensures View() == seq(n, _ => Client(link, filter, port, log))
    {
      links := new Link[n](_ => link);
      masks := new bv32[n](_ => filter);
      ports := new Port[n](_ => port);
      logs := seq(n, _ => log);
    }

    ghost predicate Valid()
      reads this, links
    {
      && links as object != masks && links as object != ports && masks as object != ports
      && links.Length == masks.Length == ports.Length == |logs|
      && forall j :: 0 <= j < links.Length ==> links[j].Valid()
    }

    /** The clients as the protocol model sees them. */
    ghost function View(): (cs: seq<Client>)
      requires Valid()
      reads this, links, masks, ports
    {
      seq(links.Length, j requires Valid() && 0 <= j < links.Length reads this, links, masks, ports =>
        Client(links[j], masks[j], ports[j], logs[j]))
    }

    /** Arrays of different element types are different objects. */
    predicate DistinctFrom(pool: MemPool) {
      pool.mem as object != links && pool.mem as object != masks && pool.mem as object != ports
    }

    /** Lines 288-321: offer the buffer to client i. */
    method OfferTo(i: nat, buf: int, result: bv32, ghost num: nat) returns (took: bool)
      requires Valid() && i < links.Length
      modifies links, ports, this`logs
      ensures Valid()
      ensures View() == old(View())[i := Offer(old(View())[i], result, buf, num)]
      ensures took == Takes(old(View())[i], result)
    {
      ghost var was := View();
      var l := links[i];
      ghost var c := was[i];
      assert c == Client(l, masks[i], ports[i], logs[i]);
      OfferCases(c, result, buf, num);
      hide Offer, Takes, Hits;
      took := false;
      if Hits(masks[i], result) {
        var newWrIndex := if l.wr + 1 != SLOTS then l.wr + 1 else 0;
        var queueSize := l.wr - l.rd;
        if queueSize < 0 {
          queueSize := queueSize + SLOTS;
        }
        if queueSize < l.maxQueue && newWrIndex != l.rd {
          took := true;
          l := l.(fifo := l.fifo[l.wr := buf], wr := newWrIndex);
          if !l.notified {
            ports[i] := ports[i].(tokens := ports[i].tokens + 1);
            l := l.(notified := true);
          }
          logs := logs[i := logs[i].(accepted := logs[i].accepted + [num], matched := logs[i].matched + 1)];
        } else {
          l := l.Drop();
          logs := logs[i := logs[i].(matched := logs[i].matched + 1, dropped := logs[i].dropped + 1)];
        }
        links[i] := l;
      }
      assert View()[i] == Client(links[i], masks[i], ports[i], logs[i]) == Offer(c, result, buf, num);
    }

    /** The loop of process_received_frame. */
    method OfferToAll(buf: int, result: bv32, ghost num: nat) returns (tcount: nat)
      requires Valid()
      modifies links, ports, this`logs
      ensures Valid()
      ensures View() == OfferAll(old(View()), result, buf, num)
      ensures tcount == Accepting(old(View()), result)
    {
      hide Offer, Takes, Hits;
      ghost var was := View();
      tcount := 0;
      var i := 0;
      while i < links.Length
        invariant 0 <= i <= links.Length == |was| && Valid()
        invariant forall j :: 0 <= j < i ==> View()[j] == Offer(was[j], result, buf, num)
        invariant forall j :: i <= j < links.Length ==> View()[j] == was[j]
        invariant tcount == Accepting(was[..i], result)
      {
        ghost var now := View();
        var took := OfferTo(i, buf, result, num);
        assert was[..i + 1][..i] == was[..i];
        if took {
          tcount := tcount + 1;
        }
        i := i + 1;
      }
      assert was[..i] == was;
    }

    /** process_received_frame for frame number num, record k of the pool: every matching
        client with space gets the buffer; it is freed at once when nobody took it. */
    method ProcessReceivedFrame(pool: MemPool, buf: int, result: bv32, ghost num: nat, ghost k: nat)
      requires Valid() && pool.Valid() && DistinctFrom(pool)
      requires k < |pool.fifo| && !pool.fifo[k].freed && buf == pool.fifo[k].addr + HEADER
      modifies links, ports, this`logs, pool`rdptr, pool`atStart, pool`fifo, pool.mem
      ensures Valid() && pool.Valid()
      ensures View() == OfferAll(old(View()), result, buf, num)
      ensures Accepting(old(View()), result) == 0 ==> pool.fifo == Reclaim(P.Mark(old(pool.fifo), buf - HEADER))
      ensures Accepting(old(View()), result) > 0 ==>
                && pool.fifo == old(pool.fifo)
                && buf + TCOUNT - HEADER < pool.mem.Length
                && pool.mem[..] == old(pool.mem[..])[buf + TCOUNT - HEADER := Accepting(old(View()), result) - 1]
    {
      hide OfferAll, Accepting, Reclaim, P.Mark;
      var tcount := 0;
      ghost var was := View();
      if result != 0 {
        tcount := OfferToAll(buf, result, num);
      } else {
        NothingMatches(was, result, buf, num);
      }
      ghost var now := View();
      if tcount == 0 {
        assert P.IsLive(pool.fifo, buf - HEADER);
        pool.Free(buf);
        assert View() == now;
      } else {
        assert pool.View().Usable(pool.fifo[k].addr);
        pool.SetTcount(buf, tcount - 1, k);
        assert View() == now;
      }
    }

    /** Lines 95-149: the value of a command other than a frame request is taken from the channel
        and stored. */
    method StoreSetting(i: nat, req: Request)
      requires Valid() && i < links.Length && !req.Frame?
      modifies links, masks
      ensures Valid() && ports[..] == old(ports[..])
      ensures View() == old(View())[i := Apply(old(View())[i], req)]
      ensures masks[i] == if req.SetFilter? then req.mask else old(masks[i])
      ensures links[i].maxQueue == if req.SetQueue? then req.size
                                   else if req.SetDrop? then (if req.drop then 1 else SLOTS)
                                   else old(links[i]).maxQueue
      ensures links[i].wants == if req.SetStatus? then req.wants else old(links[i]).wants
    {
      match req {
        case SetFilter(m) => masks[i] := m;
        case SetDrop(d) =>
          if d {
            links[i] := links[i].(maxQueue := 1);
          } else {
            links[i] := links[i].(maxQueue := SLOTS);
          }
        case SetQueue(n) => links[i] := links[i].(maxQueue := n);
        case SetStatus(w) => links[i] := links[i].(wants := w);
        case _ =>
      }
      assert View()[i] == Client(links[i], masks[i], ports[i], logs[i]);
    }

    /** Lines 95-155: the setting is stored, the client's call returns, and a notification it
        consumed is sent again. */
    method ServiceCommand(i: nat, req: Request, renotify: bool)
      requires Valid() && i < links.Length && !req.Frame?
      modifies links, masks, ports
      ensures Valid()
      ensures masks[i] == if req.SetFilter? then req.mask else old(masks[i])
      ensures links[i].maxQueue == if req.SetQueue? then req.size
                                   else if req.SetDrop? then (if req.drop then 1 else SLOTS)
                                   else old(links[i]).maxQueue
      ensures links[i].wants == if req.SetStatus? then req.wants else old(links[i]).wants
      ensures ports[i] == Port(old(ports[i]).tokens + (if renotify then 1 else 0), old(ports[i]).toServer, AtRest)
      ensures var (c, ph) := MeetCommand(old(View())[i], req, renotify);
              View() == old(View())[i := if ph.Renotifying? then Finish(c, ph) else c]
    {
      ghost var was := View();
      CommandPort(was[i], req, renotify);
      hide Apply, MeetCommand, Finish;
      StoreSetting(i, req);
      ghost var stored := View();
      assert stored[i] == Client(links[i], masks[i], ports[i], logs[i]);
      ports[i] := ports[i].(pc := AtRest);
      if renotify {
        ports[i] := ports[i].(tokens := ports[i].tokens + 1);
      }
      ghost var last := stored[i].(port := ports[i]);
      assert View()[i] == last;
      assert View() == stored[i := last] == was[i := last];
    }

    /** Client i's record after a frame request, in the protocol model. */
    ghost function AfterRequest(c: Client, sent: seq<int>): Client {
      if c.link.wants == 2 then Finish(MeetStatus(c).0, Deciding)
      else if c.link.IsEmpty() then c
      else Finish(MeetFrame(c, sent).0, Popping)
    }

    /** Lines 442-449 and 422-427: advance the read index if a frame went out, then notify the
        client again or clear its flag. */
    method FinishRequest(i: nat, popped: bool)
      requires Valid() && i < links.Length
      requires popped ==> !links[i].IsEmpty()
      modifies links, ports
      ensures Valid()
      ensures View() == old(View())[i := Finish(old(View())[i], if popped then Popping else Deciding)]
    {
      ghost var c := View()[i];
      var l := links[i];
      var newRdIndex := l.rd;
      if popped {
        newRdIndex := l.rd + 1;
        if newRdIndex == SLOTS {
          newRdIndex := 0;
        }
      }
      l := l.(rd := newRdIndex);
      if newRdIndex != l.wr {
        ports[i] := ports[i].(tokens := ports[i].tokens + 1);
      } else {
        l := l.(notified := false);
      }
      links[i] := l;
      assert View()[i] == Finish(c, if popped then Popping else Deciding);
    }

    /** What serving record k to client i does to the pool. */
    ghost predicate Served(was: Pool, q: seq<Packet>, k: nat, now: Pool, q': seq<Packet>)
    {
      && k < |q| && 0 <= q[k].addr + TCOUNT < |was.mem|
      && var x := q[k].addr + TCOUNT;
         if was.mem[x] == 0 then q' == Reclaim(P.Mark(q, q[k].addr))
         else q' == q && now.mem == was.mem[x := was.mem[x] - 1]
    }

    /** Lines 431-440: the record's words go out, its count goes down, and the last holder
        frees it. */
    method SendOldest(i: nat, pool: MemPool, ghost k: nat) returns (sent: seq<int>)
      requires Valid() && pool.Valid() && DistinctFrom(pool) && i < links.Length
      requires k < |pool.fifo| && !pool.fifo[k].freed
      requires links[i].fifo[links[i].rd] == pool.fifo[k].addr + HEADER
      modifies ports, this`logs, pool`rdptr, pool`atStart, pool`fifo, pool.mem
      ensures Valid() && pool.Valid()
      ensures View() == old(View())[i := MeetFrame(old(View())[i], sent).0]
      ensures Stream.CarriesFrame(sent, old(pool.fifo)[k].data, old(pool.fifo)[k].length)
      ensures Served(old(pool.View()), old(pool.fifo), k, pool.View(), pool.fifo)
    {
      hide Reclaim, P.Mark;
      assert pool.View().Usable(pool.fifo[k].addr);
      Stream.FrameWordsAreCommitted(pool.View(), pool.fifo, k);
      hide Chain, Stream.FrameWords, Stream.CarriesFrame;
      ghost var was, a := View(), pool.fifo[k].addr;
      var buf := links[i].fifo[links[i].rd];
      sent := Stream.FrameWords(Pool(pool.rdptr, pool.wrptr, pool.atStart, pool.mem[..]), buf - HEADER);
      ports[i] := ports[i].(pc := AtRest);
      logs := logs[i := logs[i].(done := logs[i].done + 1, got := logs[i].got + [sent])];
      ghost var now := View();
      assert now == was[i := MeetFrame(was[i], sent).0];
      var count := pool.GetAndDecTransmitCount(buf, k);
      if count == 0 {
        assert P.IsLive(pool.fifo, a);
        pool.Free(buf);
      }
      assert View() == now;
    }

    /** The frame-request branch of the select loop, for a client whose oldest buffer is
        record k of the pool. */
    method ServeFrameRequest(i: nat, pool: MemPool, ghost k: nat) returns (sent: seq<int>)
      requires Valid() && pool.Valid() && DistinctFrom(pool) && i < links.Length
      requires k < |pool.fifo| && !pool.fifo[k].freed
      requires !links[i].IsEmpty() ==> links[i].fifo[links[i].rd] == pool.fifo[k].addr + HEADER
      modifies links, ports, this`logs, pool`rdptr, pool`atStart, pool`fifo, pool.mem
      ensures Valid() && pool.Valid()
      ensures View() == old(View())[i := AfterRequest(old(View())[i], sent)]
      ensures old(links[i]).wants == 2 || old(links[i]).IsEmpty() ==>
                pool.fifo == old(pool.fifo) && pool.View() == old(pool.View())
      // a status packet is sent once
      ensures old(links[i]).wants == 2 ==> links[i].wants == 1
      ensures old(links[i]).wants != 2 ==> links[i].wants == old(links[i]).wants
      ensures !(old(links[i]).wants == 2 || old(links[i]).IsEmpty()) ==>
                && links[i].Queue() == old(links[i]).Queue()[1..]
                && logs[i].got == old(logs)[i].got + [sent]
                && Stream.CarriesFrame(sent, old(pool.fifo)[k].data, old(pool.fifo)[k].length)
                && Served(old(pool.View()), old(pool.fifo), k, pool.View(), pool.fifo)
    {
      hide Finish, Served, Chain, Stream.CarriesFrame;
      ghost var c := View()[i];
      sent := [];
      if links[i].wants == 2 {
        links[i] := links[i].(wants := 1);
        ports[i] := ports[i].(pc := AtRest);
        assert View()[i] == MeetStatus(c).0;
        FinishRequest(i, false);
        FinishKeeps(MeetStatus(c).0, Deciding);
      } else if links[i].rd != links[i].wr {
        sent := SendOldest(i, pool, k);
        assert View()[i] == MeetFrame(c, sent).0;
        FinishRequest(i, true);
        FinishKeeps(MeetFrame(c, sent).0, Popping);
      }
      assert View()[i] == Client(links[i], masks[i], ports[i], logs[i]);
    }
  }

  /** The service of a command ends with the client's port at rest, one notification richer if
      one was consumed, and changes otherwise what Apply changes. */
  lemma CommandPort(c: Client, req: Request, renotify: bool)
    ensures Apply(c, req).port == c.port
    ensures var (d, ph) := MeetCommand(c, req, renotify);
            (if ph.Renotifying? then Finish(d, ph) else d)
            == Apply(c, req).(port := Port(c.port.tokens + (if renotify then 1 else 0), c.port.toServer, AtRest))
  {}

  /** The end of a request touches neither the subscription nor the history, and removes the
      oldest buffer if it was sent. */
  lemma FinishKeeps(c: Client, ph: Phase)
    requires c.link.Valid() && (ph.Popping? ==> !c.link.IsEmpty())
    ensures var c' := Finish(c, ph);
            && c'.link.Valid() && c'.link.wants == c.link.wants && c'.log == c.log
            && c'.link.Queue() == if ph.Popping? then c.link.Queue()[1..] else c.link.Queue()
  {
    if ph.Popping? {
      PopRemovesOldest(c.link);
      assert Finish(c, ph).link.Queue() == c.link.Pop().Queue();
    } else {
      assert Finish(c, ph).link.Queue() == c.link.Queue();
    }
  }

  /** Offer, in terms of the fields process_received_frame updates. */
  lemma OfferCases(c: Client, result: bv32, buf: int, n: nat)
    requires c.link.Valid()
    ensures var l := c.link;
            var size := if l.wr - l.rd < 0 then l.wr - l.rd + SLOTS else l.wr - l.rd;
            var next := if l.wr + 1 != SLOTS then l.wr + 1 else 0;
            var takes := Hits(c.mask, result) && size < l.maxQueue && next != l.rd;
            && Takes(c, result) == takes
            && Offer(c, result, buf, n).link.Valid()
            && Offer(c, result, buf, n)
               == if !Hits(c.mask, result) then c
                  else if takes then
                    Client(l.(fifo := l.fifo[l.wr := buf], wr := next, notified := true), c.mask,
                           if l.notified then c.port else c.port.(tokens := c.port.tokens + 1),
                           c.log.(accepted := c.log.accepted + [n], matched := c.log.matched + 1))
                  else
                    Client(l.Drop(), c.mask, c.port,
                           c.log.(matched := c.log.matched + 1, dropped := c.log.dropped + 1))
  {}

  lemma {:induction false} NothingMatches(cs: seq<Client>, result: bv32, buf: int, n: nat)
    requires result == 0
    ensures Accepting(cs, result) == 0 && OfferAll(cs, result, buf, n) == cs
  {
    assert forall j :: 0 <= j < |cs| ==> !Hits(cs[j].mask, result);
    if cs != [] {
      NothingMatches(cs[..|cs| - 1], result, buf, n);
    }
  }
}
