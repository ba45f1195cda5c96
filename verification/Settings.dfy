/** What each client has asked for: filter mask, queue limit and status updates follow from the
    commands it has completed, and they decide which frames it is given. */
module Settings {
  import opened RingPool
  import opened Links
  import opened Protocol
  import opened RxSystem
  import opened SystemProofs
  import opened SystemTheorems
  import P = PoolSteps

  datatype Asking = Nothing | Asks(req: Request)

  predicate StartsAt(e: Event, j: nat) { e.Start? && e.j == j }

  /** The request client j made last. */
  function Asked(events: seq<Event>, j: nat): Asking {
    if events == [] then Nothing
    else if StartsAt(events[|events| - 1], j) then Asks(events[|events| - 1].req)
    else Asked(events[..|events| - 1], j)
  }

  /** The request whose data rendezvous is the last event. */
  function Done(events: seq<Event>, j: nat): Asking {
    if events != [] && events[|events| - 1] == Meet(j) then Asked(events[..|events| - 1], j) else Nothing
  }

  function MaskOf(events: seq<Event>, j: nat): bv32 {
    if events == [] then 0
    else match Done(events, j)
      case Asks(SetFilter(m)) => m
      case _ => MaskOf(events[..|events| - 1], j)
  }

  function LimitOf(events: seq<Event>, j: nat): int {
    if events == [] then SLOTS
    else match Done(events, j)
      case Asks(SetQueue(n)) => n
      case Asks(SetDrop(d)) => if d then 1 else SLOTS
      case _ => LimitOf(events[..|events| - 1], j)
  }

  /** 0: no status updates; 1: none due; 2: a status packet is due. */
  function WantsOf(events: seq<Event>, j: nat): int {
    if events == [] then 0
    else
      var before := WantsOf(events[..|events| - 1], j);
      if events[|events| - 1].LinkChange? then (if before == 0 then 0 else 2)
      else match Done(events, j)
        case Asks(SetStatus(w)) => w
        case Asks(Frame(_)) => if before == 2 then 1 else before
        case _ => before
  }

  /** The client's record in the server agrees with its commands. */
  predicate Agrees(c: Client, events: seq<Event>, j: nat) {
    && (c.port.pc.AtRest? || Asked(events, j) == Asks(c.port.pc.req))
    && c.mask == MaskOf(events, j) && c.link.maxQueue == LimitOf(events, j) && c.link.wants == WantsOf(events, j)
  }

  /** What one event does to a client's settings and request. */
  predicate Follows(c: Client, e: Event, c': Client, j: nat) {
    && (if StartsAt(e, j) then c'.port.pc.AtRest? || c'.port.pc.req == e.req
        else c'.port.pc.AtRest? || (!c.port.pc.AtRest? && c'.port.pc.req == c.port.pc.req))
    && var done := if e == Meet(j) && !c.port.pc.AtRest? then Asks(c.port.pc.req) else Nothing;
       && c'.mask == (match done case Asks(SetFilter(m)) => m case _ => c.mask)
       && c'.link.maxQueue == (match done
                               case Asks(SetQueue(n)) => n
                               case Asks(SetDrop(d)) => if d then 1 else SLOTS
                               case _ => c.link.maxQueue)
       && c'.link.wants == (if e.LinkChange? then (if c.link.wants == 0 then 0 else 2)
                            else match done
                              case Asks(SetStatus(w)) => w
                              case Asks(Frame(_)) => if c.link.wants == 2 then 1 else c.link.wants
                              case _ => c.link.wants)
  }

  /** A take, a memory step, a step of a port or the end of a request leaves the settings. */
  lemma OtherFollows(s: System, e: Event, j: nat)
    requires Inv(s) && Enabled(s, e) && j < |s.clients| && !e.Meet?
    ensures |Step(s, e).clients| == |s.clients| && Follows(s.clients[j], e, Step(s, e).clients[j], j)
  {
    hide P.Inv, Ledger, TokenInv, P.Enabled, P.Step, Accepting, PutWord, BeginFree, Word;
  }

  /** The data rendezvous applies the request it is of. */
  lemma MeetFollows(s: System, i: nat, j: nat)
    requires Inv(s) && Enabled(s, Meet(i)) && j < |s.clients|
    ensures |Step(s, Meet(i)).clients| == |s.clients|
    ensures Follows(s.clients[j], Meet(i), Step(s, Meet(i)).clients[j], j)
  {
    hide P.Inv, Ledger, P.Load, PutWord, BeginFree, Send;
    assert TokenInv(s.clients[i], PhaseOf(s, i));
  }

  lemma AgreesStep(c: Client, events: seq<Event>, e: Event, c': Client, j: nat)
    requires Agrees(c, events, j) && Follows(c, e, c', j) && (e == Meet(j) ==> !c.port.pc.AtRest?)
    ensures Agrees(c', events + [e], j)
  {
    var all := events + [e];
    assert all[..|all| - 1] == events && all[|all| - 1] == e;
  }

  lemma EventFollows(s: System, e: Event, j: nat)
    requires Inv(s) && Enabled(s, e) && j < |s.clients|
    ensures |Step(s, e).clients| == |s.clients| && Follows(s.clients[j], e, Step(s, e).clients[j], j)
    ensures e == Meet(j) ==> !s.clients[j].port.pc.AtRest?
  {
    hide Inv, Step, Follows;
    if e.Meet? { MeetFollows(s, e.j, j); } else { OtherFollows(s, e, j); }
  }

  lemma FirstAgrees(s: System, j: nat)
    requires IsInit(s) && j < |s.clients|
    ensures Agrees(s.clients[j], [], j)
  {
    assert s.clients[j] == InitClient(s.clients[j].link.fifo);
  }

  lemma {:induction false} RunAgrees(trace: seq<System>, events: seq<Event>, i: nat, j: nat)
    requires IsRun(trace, events) && i < |trace| && j < |trace[i].clients|
    ensures Agrees(trace[i].clients[j], events[..i], j)
  {
    hide Inv, Step, Enabled, Agrees, Follows;
    if i == 0 {
      FirstAgrees(trace[0], j);
    } else {
      EventEnabled(trace, events, i - 1);
      RunInv(trace, events, i - 1);
      SameClients(trace[i - 1], events[i - 1]);
      RunAgrees(trace, events, i - 1, j);
      EventFollows(trace[i - 1], events[i - 1], j);
      AgreesStep(trace[i - 1].clients[j], events[..i - 1], events[i - 1], trace[i].clients[j], j);
      assert events[..i] == events[..i - 1] + [events[i - 1]];
    }
  }

  lemma SameClients(s: System, e: Event)
    requires Enabled(s, e)
    ensures |Step(s, e).clients| == |s.clients|
  {
    hide Send, P.Load, P.Step, P.Enabled, P.Store, Accepting, AcceptOp, AcceptCmd, Finish, StatusChange, Word;
  }

  // ---------- the last command counts ----------

  /** Event i completes request req of client j: it is the data rendezvous that follows the
      client's start of req, with no other start in between. */
  ghost predicate Completes(events: seq<Event>, i: nat, j: nat, req: Request) {
    && i < |events| && events[i] == Meet(j)
    && exists k :: 0 <= k < i && events[k] == Start(j, req) && forall l :: k < l < i ==> !StartsAt(events[l], j)
  }

  lemma {:induction false} AskedIs(events: seq<Event>, j: nat, k: nat, req: Request)
    requires k < |events| && events[k] == Start(j, req) && forall l :: k < l < |events| ==> !StartsAt(events[l], j)
    ensures Asked(events, j) == Asks(req)
  {
    if k < |events| - 1 { AskedIs(events[..|events| - 1], j, k, req); }
  }

  lemma {:induction false} AskedFrom(events: seq<Event>, j: nat)
    requires Asked(events, j).Asks?
    ensures exists k :: 0 <= k < |events| && events[k] == Start(j, Asked(events, j).req)
                        && forall l :: k < l < |events| ==> !StartsAt(events[l], j)
  {
    var n := |events| - 1;
    if !StartsAt(events[n], j) {
      AskedFrom(events[..n], j);
      var k :| 0 <= k < n && events[..n][k] == Start(j, Asked(events, j).req)
               && forall l :: k < l < n ==> !StartsAt(events[..n][l], j);
      assert events[k] == events[..n][k];
      forall l | k < l < |events|
        ensures !StartsAt(events[l], j)
      {
        if l < n { assert events[..n][l] == events[l]; }
      }
    } else {
      assert events[n] == Start(j, Asked(events, j).req);
    }
  }

  /** Completes, through the functions above. */
  lemma CompletesIff(events: seq<Event>, i: nat, j: nat, req: Request)
    requires i < |events|
    ensures Completes(events, i, j, req) <==> Done(events[..i + 1], j) == Asks(req)
  {
    var pre := events[..i + 1];
    assert pre[..|pre| - 1] == events[..i] && pre[|pre| - 1] == events[i];
    if Completes(events, i, j, req) {
      var k :| 0 <= k < i && events[k] == Start(j, req) && forall l :: k < l < i ==> !StartsAt(events[l], j);
      AskedIs(events[..i], j, k, req);
    }
    if Done(pre, j) == Asks(req) {
      AskedFrom(events[..i], j);
      var k :| 0 <= k < i && events[..i][k] == Start(j, req) && forall l :: k < l < i ==> !StartsAt(events[..i][l], j);
      assert forall l :: k < l < i ==> events[..i][l] == events[l];
    }
  }

  ghost predicate SetsFilter(events: seq<Event>, i: nat, j: nat) { exists m :: Completes(events, i, j, SetFilter(m)) }

  ghost predicate SetsLimit(events: seq<Event>, i: nat, j: nat) {
    (exists n :: Completes(events, i, j, SetQueue(n))) || (exists d :: Completes(events, i, j, SetDrop(d)))
  }

  /** No event from i on, before n, sets the mask: it is as it was. */
  lemma {:induction false} MaskStays(events: seq<Event>, j: nat, i: nat, n: nat)
    requires i <= n <= |events| && forall l :: i <= l < n ==> !SetsFilter(events, l, j)
    ensures MaskOf(events[..n], j) == MaskOf(events[..i], j)
  {
    if i < n {
      MaskStays(events, j, i, n - 1);
      assert events[..n][..n - 1] == events[..n - 1];
      if Done(events[..n], j).Asks? && Done(events[..n], j).req.SetFilter? {
        CompletesIff(events, n - 1, j, Done(events[..n], j).req);
        assert SetsFilter(events, n - 1, j);
      }
    }
  }

  lemma {:induction false} LimitStays(events: seq<Event>, j: nat, i: nat, n: nat)
    requires i <= n <= |events| && forall l :: i <= l < n ==> !SetsLimit(events, l, j)
    ensures LimitOf(events[..n], j) == LimitOf(events[..i], j)
  {
    if i < n {
      LimitStays(events, j, i, n - 1);
      assert events[..n][..n - 1] == events[..n - 1];
      var done := Done(events[..n], j);
      if done.Asks? && (done.req.SetQueue? || done.req.SetDrop?) {
        CompletesIff(events, n - 1, j, done.req);
        assert SetsLimit(events, n - 1, j);
      }
    }
  }

  /** In every run a client's filter mask is the argument of the last filter command it has
      completed, and 0 before the first. */
  lemma MaskIsLastFilter(trace: seq<System>, events: seq<Event>, n: nat, j: nat, i: nat, m: bv32)
    requires IsRun(trace, events) && n < |trace| && j < |trace[n].clients|
    ensures (forall l :: 0 <= l < n ==> !SetsFilter(events, l, j)) ==> trace[n].clients[j].mask == 0
    ensures i < n && Completes(events, i, j, SetFilter(m)) && (forall l :: i < l < n ==> !SetsFilter(events, l, j)) ==>
              trace[n].clients[j].mask == m
  {
    RunAgrees(trace, events, n, j);
    SettingsOf(trace[n].clients[j], events[..n], j);
    MaskIsLast(events, n, j, i, m);
    hide *;
  }

  lemma MaskIsLast(events: seq<Event>, n: nat, j: nat, i: nat, m: bv32)
    requires n <= |events|
    ensures (forall l :: 0 <= l < n ==> !SetsFilter(events, l, j)) ==> MaskOf(events[..n], j) == 0
    ensures i < n && Completes(events, i, j, SetFilter(m)) && (forall l :: i < l < n ==> !SetsFilter(events, l, j)) ==>
              MaskOf(events[..n], j) == m
  {
    hide Completes, SetsFilter;
    if forall l :: 0 <= l < n ==> !SetsFilter(events, l, j) {
      MaskStays(events, j, 0, n);
    }
    if i < n && Completes(events, i, j, SetFilter(m)) && (forall l :: i < l < n ==> !SetsFilter(events, l, j)) {
      CompletesIff(events, i, j, SetFilter(m));
      MaskStays(events, j, i + 1, n);
    }
  }

  /** In every run its queue limit is set by the last queue-size or drop command it has completed
      (drop: a queue of one), and is the number of slots before the first. */
  lemma LimitIsLastCommand(trace: seq<System>, events: seq<Event>, n: nat, j: nat, i: nat, size: int, drop: bool)
    requires IsRun(trace, events) && n < |trace| && j < |trace[n].clients|
    ensures (forall l :: 0 <= l < n ==> !SetsLimit(events, l, j)) ==> trace[n].clients[j].link.maxQueue == SLOTS
    ensures i < n && (forall l :: i < l < n ==> !SetsLimit(events, l, j)) ==>
              && (Completes(events, i, j, SetQueue(size)) ==> trace[n].clients[j].link.maxQueue == size)
              && (Completes(events, i, j, SetDrop(drop)) ==>
                    trace[n].clients[j].link.maxQueue == if drop then 1 else SLOTS)
  {
    RunAgrees(trace, events, n, j);
    SettingsOf(trace[n].clients[j], events[..n], j);
    LimitIsLast(events, n, j, i, size, drop);
    hide *;
  }

  lemma LimitIsLast(events: seq<Event>, n: nat, j: nat, i: nat, size: int, drop: bool)
    requires n <= |events|
    ensures (forall l :: 0 <= l < n ==> !SetsLimit(events, l, j)) ==> LimitOf(events[..n], j) == SLOTS
    ensures i < n && (forall l :: i < l < n ==> !SetsLimit(events, l, j)) ==>
              && (Completes(events, i, j, SetQueue(size)) ==> LimitOf(events[..n], j) == size)
              && (Completes(events, i, j, SetDrop(drop)) ==> LimitOf(events[..n], j) == if drop then 1 else SLOTS)
  {
    hide Completes, SetsLimit;
    if forall l :: 0 <= l < n ==> !SetsLimit(events, l, j) {
      LimitStays(events, j, 0, n);
    }
    if i < n && (forall l :: i < l < n ==> !SetsLimit(events, l, j)) {
      CompletesIff(events, i, j, SetQueue(size));
      CompletesIff(events, i, j, SetDrop(drop));
      LimitStays(events, j, i + 1, n);
    }
  }

  // ---------- status packets ----------

  ghost predicate Subscribes(events: seq<Event>, i: nat, j: nat) { exists w :: Completes(events, i, j, SetStatus(w)) }

  ghost predicate AsksFrame(events: seq<Event>, i: nat, j: nat) { exists o :: Completes(events, i, j, Frame(o)) }

  /** Event i makes a status packet due for client j: the link status changes while it is
      subscribed, or it asks for a packet itself. */
  ghost predicate Raises(events: seq<Event>, i: nat, j: nat)
    requires i < |events|
  {
    (events[i].LinkChange? && WantsOf(events[..i], j) != 0) || Completes(events, i, j, SetStatus(2))
  }

  lemma WantsStep(events: seq<Event>, n: nat, j: nat)
    requires n < |events|
    ensures var before, after := WantsOf(events[..n], j), WantsOf(events[..n + 1], j);
            && (after == 2 <==> Raises(events, n, j)
                                || (before == 2 && !Subscribes(events, n, j) && !AsksFrame(events, n, j)))
            && (!Subscribes(events, n, j) ==> (after == 0 <==> before == 0))
            && (forall w :: Completes(events, n, j, SetStatus(w)) ==> after == w)
  {
    var pre := events[..n + 1];
    var done := Done(pre, j);
    assert pre[..|pre| - 1] == events[..n] && pre[|pre| - 1] == events[n];
    forall req
      ensures Completes(events, n, j, req) <==> done == Asks(req)
    {
      CompletesIff(events, n, j, req);
    }
    assert Completes(events, n, j, SetStatus(2)) <==> done == Asks(SetStatus(2));
    if done.Asks? && done.req.SetStatus? { assert Completes(events, n, j, SetStatus(done.req.wants)); }
    if done.Asks? && done.req.Frame? { assert Completes(events, n, j, Frame(done.req.offset2)); }
    hide Completes;
  }

  /** A status packet is due exactly when the link status has changed for a subscribed client
      (or the client has asked for a packet) and since then the client has completed neither a
      frame request, which takes the packet, nor another subscription command. */
  lemma {:induction false} StatusDueIff(events: seq<Event>, n: nat, j: nat)
    requires n <= |events|
    ensures WantsOf(events[..n], j) == 2
            <==> exists i :: 0 <= i < n && Raises(events, i, j)
                             && forall l :: i < l < n ==> !Subscribes(events, l, j) && !AsksFrame(events, l, j)
  {
    if n > 0 {
      StatusDueIff(events, n - 1, j);
      WantsStep(events, n - 1, j);
      hide WantsOf, Raises, Subscribes, AsksFrame;
    }
  }

  /** A client is subscribed exactly when the last subscription command it completed did not ask
      for 0. */
  lemma {:induction false} SubscribedIff(events: seq<Event>, n: nat, j: nat)
    requires n <= |events|
    ensures WantsOf(events[..n], j) != 0
            <==> exists i, w :: 0 <= i < n && w != 0 && Completes(events, i, j, SetStatus(w))
                                && forall l :: i < l < n ==> !Subscribes(events, l, j)
  {
    if n > 0 {
      SubscribedIff(events, n - 1, j);
      WantsStep(events, n - 1, j);
      hide WantsOf, Completes;
      if Subscribes(events, n - 1, j) {
        var w :| Completes(events, n - 1, j, SetStatus(w));
        assert WantsOf(events[..n], j) == w;
      }
    }
  }

  /** In every run a frame request is answered by a status packet exactly when one is due, and
      otherwise by the client's oldest frame; either way the request is over. */
  lemma FrameRequestOutcome(trace: seq<System>, events: seq<Event>, n: nat, j: nat)
    requires IsRun(trace, events) && n < |events| && j < |trace[n].clients| && AsksFrame(events, n, j)
    ensures j < |trace[n + 1].clients|
    ensures var c, c' := trace[n].clients[j], trace[n + 1].clients[j];
            && c'.port.pc.AtRest?
            && if WantsOf(events[..n], j) == 2 then c'.log == c.log && c'.link.wants == 1
               else c'.link.wants == c.link.wants != 2 && c'.log.done == c.log.done + 1 && |c'.log.got| == |c.log.got| + 1
  {
    hide *;
    EventEnabled(trace, events, n);
    RunInv(trace, events, n);
    RunAgrees(trace, events, n, j);
    FrameAsked(events, n, j);
    AskedOutcome(trace[n], events[..n], j);
  }

  lemma AskedOutcome(s: System, events: seq<Event>, j: nat)
    requires Inv(s) && Enabled(s, Meet(j)) && j < |s.clients| && Agrees(s.clients[j], events, j)
    requires Asked(events, j).Asks? && Asked(events, j).req.Frame?
    ensures j < |Step(s, Meet(j)).clients|
    ensures var c, c' := s.clients[j], Step(s, Meet(j)).clients[j];
            && c'.port.pc.AtRest?
            && if WantsOf(events, j) == 2 then c'.log == c.log && c'.link.wants == 1
               else c'.link.wants == c.link.wants != 2 && c'.log.done == c.log.done + 1 && |c'.log.got| == |c.log.got| + 1
  {
    MeetsAsked(s, events, j);
    hide Inv, Enabled, Step, Asked, MaskOf, LimitOf, WantsOf;
    MeetOutcome(s, j);
  }

  lemma MeetsAsked(s: System, events: seq<Event>, j: nat)
    requires Enabled(s, Meet(j)) && Agrees(s.clients[j], events, j) && Asked(events, j).Asks?
    ensures s.clients[j].port.pc.Exchanging? && s.clients[j].port.pc.req == Asked(events, j).req
  {
    hide Asked, MaskOf, LimitOf, WantsOf;
  }

  lemma FrameAsked(events: seq<Event>, n: nat, j: nat)
    requires n < |events| && AsksFrame(events, n, j)
    ensures events[n] == Meet(j) && Asked(events[..n], j).Asks? && Asked(events[..n], j).req.Frame?
  {
    var o :| Completes(events, n, j, Frame(o));
    CompletesIff(events, n, j, Frame(o));
    assert events[..n + 1][..n] == events[..n];
  }

  lemma MeetOutcome(s: System, j: nat)
    requires Inv(s) && Enabled(s, Meet(j)) && s.clients[j].port.pc.req.Frame?
    ensures j < |Step(s, Meet(j)).clients|
    ensures var c, c' := s.clients[j], Step(s, Meet(j)).clients[j];
            && c'.port.pc.AtRest?
            && if c.link.wants == 2 then c'.log == c.log && c'.link.wants == 1
               else c'.link.wants == c.link.wants && c'.log.done == c.log.done + 1 && |c'.log.got| == |c.log.got| + 1
  {
    hide P.Inv, Ledger, P.Load, PutWord, BeginFree, Send;
    RendezvousIsClean(s.clients[j], PhaseOf(s, j), []);
  }

  // ---------- acceptance in every run ----------

  /** Some bit is set in both. */
  ghost predicate ShareBit(mask: bv32, result: bv32) { exists k: bv5 :: BitSet(mask, k) && BitSet(result, k) }

  /** What is recorded of the frames offered to a client. */
  predicate SameOffers(c: Client, c': Client) {
    c'.log.accepted == c.log.accepted && c'.log.matched == c.log.matched && c'.log.dropped == c.log.dropped
  }

  lemma OtherEventsOfferNothing(s: System, e: Event, j: nat)
    requires Enabled(s, e) && !e.TakeFrame? && j < |s.clients|
    ensures |Step(s, e).clients| == |s.clients| && SameOffers(s.clients[j], Step(s, e).clients[j])
  {
    hide Send, BeginFree, PutWord, P.Load, P.Step, P.Enabled;
  }

  /** In every step of every run: a frame is offered only when the server takes it, under the
      filter result in its header; it is then accepted for client j exactly when a bit of that
      result is in the mask of the client's last filter command, while fewer buffers are queued
      than its last limit command allows and than the ring's free slots; it is counted as dropped
      exactly when it matches and is not accepted. */
  lemma AcceptedInEveryRun(trace: seq<System>, events: seq<Event>, i: nat, j: nat)
    requires IsRun(trace, events) && i < |events| && j < |trace[i].clients|
    ensures |trace[i + 1].clients| == |trace[i].clients| && trace[i].clients[j].link.Valid()
    ensures var s, e := trace[i], events[i];
            var c, c' := s.clients[j], trace[i + 1].clients[j];
            var n := |c.link.Queue()|;
            && n <= SLOTS - 1
            && (e.TakeFrame? ==> e.result == Word(P.Load(s.ring.pool, s.cursor + FILTER)))
            && if e.TakeFrame? && ShareBit(MaskOf(events[..i], j), e.result) then
                 var fits := n < LimitOf(events[..i], j) && n < SLOTS - 1;
                 && c'.log.accepted == c.log.accepted + (if fits then [TakeCountOf(events[..i])] else [])
                 && c'.log.matched == c.log.matched + 1
                 && c'.log.dropped == c.log.dropped + (if fits then 0 else 1)
               else SameOffers(c, c')
  {
    hide *;
    EventEnabled(trace, events, i);
    TakesCounted(trace, events, i);
    RunInv(trace, events, i);
    RunAgrees(trace, events, i, j);
    SettingsOf(trace[i].clients[j], events[..i], j);
    LoadedResult(trace[i], events[i]);
    if events[i].TakeFrame? { MatchesIff(trace[i].clients[j], events[i].result); }
    OfferedInStep(trace[i], events[i], j);
  }

  lemma SettingsOf(c: Client, events: seq<Event>, j: nat)
    requires Agrees(c, events, j)
    ensures c.mask == MaskOf(events, j) && c.link.maxQueue == LimitOf(events, j)
  {
    hide Asked, MaskOf, LimitOf, WantsOf;
  }

  lemma LoadedResult(s: System, e: Event)
    requires Enabled(s, e)
    ensures e.TakeFrame? ==> e.result == Word(P.Load(s.ring.pool, s.cursor + FILTER))
  {
    hide P.Load, Word;
  }

  lemma MatchesIff(c: Client, result: bv32)
    ensures Matches(c, result) <==> ShareBit(c.mask, result)
  {
    HitsIff(c.mask, result);
    hide Hits, BitSet;
  }

  lemma OfferedInStep(s: System, e: Event, j: nat)
    requires Inv(s) && Enabled(s, e) && j < |s.clients|
    ensures |Step(s, e).clients| == |s.clients| && s.clients[j].link.Valid()
    ensures var c, c' := s.clients[j], Step(s, e).clients[j];
            var n := |c.link.Queue()|;
            && n <= SLOTS - 1
            && if e.TakeFrame? && Matches(c, e.result) then
                 var fits := n < c.link.maxQueue && n < SLOTS - 1;
                 && c'.log.accepted == c.log.accepted + (if fits then [s.base + s.taken] else [])
                 && c'.log.matched == c.log.matched + 1
                 && c'.log.dropped == c.log.dropped + (if fits then 0 else 1)
               else SameOffers(c, c')
  {
    hide P.Inv, Ledger, TokenInv, Enabled, Offer, Accepting;
    var c := s.clients[j];
    ValidLink(c, PhaseOf(s, j));
    QueueBound(c.link);
    if e.TakeFrame? {
      OfferOutcome(c, e.result, s.cursor + HEADER, s.base + s.taken);
    } else {
      OtherEventsOfferNothing(s, e, j);
    }
  }
}
