/** Runs in which the link status may change at any time: the status branch sends a token
    without setting `notified`. */
module StatusTokens {
  import opened RingPool
  import opened Links
  import opened Protocol
  import opened RxSystem
  import opened SystemProofs
  import opened SystemTheorems
  import P = PoolSteps

  /** A run with no restriction on link-status changes. */
  ghost predicate IsAnyRun(trace: seq<System>, events: seq<Event>) {
    && |trace| == |events| + 1
    && IsInit(trace[0])
    && forall i :: 0 <= i < |events| ==> Enabled(trace[i], events[i]) && trace[i + 1] == Step(trace[i], events[i])
  }

  /** A status change meets no un-notified subscriber. */
  ghost predicate QuietAt(trace: seq<System>, events: seq<Event>, i: nat)
    requires i < |events| < |trace|
  {
    events[i].LinkChange? ==> Quiet(trace[i])
  }

  lemma InvWhileQuiet(trace: seq<System>, events: seq<Event>, n: nat)
    requires IsAnyRun(trace, events) && n <= |events| && forall k :: 0 <= k < n ==> QuietAt(trace, events, k)
    ensures Inv(trace[n])
  {
    hide Inv, Enabled, Step, Quiet, IsInit;
    assert forall k :: 0 <= k < n ==> QuietAt(trace, events, k) && trace[..n + 1][k] == trace[k] && events[..n][k] == events[k];
    assert IsRun(trace[..n + 1], events[..n]);
    RunInv(trace[..n + 1], events[..n], n);
  }

  /** The token it sends to an un-notified subscriber is one too many. */
  lemma LoudChangeBreaks(s: System)
    requires Inv(s) && Enabled(s, LinkChange) && !Quiet(s)
    ensures !Tokens(Step(s, LinkChange))
  {
    hide P.Inv, Ledger, TokenInv, StatusChange;
    var j :| 0 <= j < |s.clients| && s.clients[j].link.wants != 0 && !s.clients[j].link.notified;
    assert TokenInv(s.clients[j], Away);
    StatusChangeTokensIff(s.clients[j]);
    assert Step(s, LinkChange).clients[j] == StatusChange(s.clients[j]);
    assert PhaseOf(Step(s, LinkChange), j) == Away;
  }

  lemma {:induction false} QuietWhileTokens(trace: seq<System>, events: seq<Event>, n: nat)
    requires IsAnyRun(trace, events) && n <= |events| && |trace| == |events| + 1
    requires forall i :: 0 <= i < |trace| ==> Tokens(trace[i])
    ensures forall k :: 0 <= k < n ==> QuietAt(trace, events, k)
  {
    hide *;
    if n > 0 {
      QuietWhileTokens(trace, events, n - 1);
      EventOf(trace, events, n - 1);
      InvWhileQuiet(trace, events, n - 1);
      QuietStep(trace, events, n - 1);
    }
  }

  lemma EventOf(trace: seq<System>, events: seq<Event>, i: nat)
    requires IsAnyRun(trace, events) && i < |events|
    ensures |trace| == |events| + 1 && Enabled(trace[i], events[i]) && trace[i + 1] == Step(trace[i], events[i])
  {
    hide Enabled, Step, IsInit;
  }

  lemma QuietStep(trace: seq<System>, events: seq<Event>, i: nat)
    requires i < |events| < |trace| && Inv(trace[i]) && Enabled(trace[i], events[i])
    requires trace[i + 1] == Step(trace[i], events[i]) && Tokens(trace[i + 1])
    ensures QuietAt(trace, events, i)
  {
    hide Inv, Enabled, Step, Tokens, Quiet;
    if !QuietAt(trace, events, i) { LoudChangeBreaks(trace[i]); }
  }

  /** A run keeps the token invariant throughout exactly when no status change in it meets a
      client that asked for status updates and has no notification outstanding. */
  lemma TokensKeptIff(trace: seq<System>, events: seq<Event>)
    requires IsAnyRun(trace, events)
    ensures (forall i :: 0 <= i < |trace| ==> Tokens(trace[i]))
            <==> (forall k :: 0 <= k < |events| ==> QuietAt(trace, events, k))
  {
    if forall i :: 0 <= i < |trace| ==> Tokens(trace[i]) {
      QuietWhileTokens(trace, events, |events|);
    }
    if forall k :: 0 <= k < |events| ==> QuietAt(trace, events, k) {
      forall i | 0 <= i < |trace|
        ensures Tokens(trace[i])
      {
        InvWhileQuiet(trace, events, i);
        hide P.Inv, Ledger, Tokens;
      }
    }
  }

  // ---------- such a run ----------

  /** A system with one client, before any frame. */
  function Lone(words: seq<int>, c: Client, ph: Phase): System
    requires |words| > START + MIN_USAGE
  {
    System(P.Init(words), START, 0, ph, [c], 0, 0, [], [])
  }

  /** A step that changes nothing but the client and what the server does with it. */
  predicate LoneStep(c: Client, ph: Phase, e: Event, c': Client, ph': Phase) {
    match e
    case Start(0, req) => c.port.pc.AtRest? && c' == Begin(c, req) && ph' == ph
    case Acked(0) => c.port.pc.AwaitAck? && c.port.tokens > 0 && c' == TakeAck(c) && ph' == ph
    case Granted(0) => c.port.pc.AwaitGrant? && c.port.tokens > 0 && c' == TakeGrant(c) && ph' == ph
    case ServeOp(0) => ph.Away? && c.port.toServer != [] && c.port.toServer[0].Op? && (c', ph') == AcceptOp(c)
    case ServeCmd(0) =>
      ph.AwaitCmd? && c.port.toServer != [] && c.port.toServer[0].Cmd? && (c', ph') == AcceptCmd(c, ph.renotify)
    case Meet(0) =>
      ph.Meeting? && !ph.req.Frame? && c.port.pc.Exchanging? && c.link.Valid()
      && (c', ph') == MeetCommand(c, ph.req, ph.renotify)
    case LinkChange => ph.Away? && c' == StatusChange(c) && ph' == ph
    case _ => false
  }

  lemma LoneStepIs(words: seq<int>, c: Client, ph: Phase, e: Event, c': Client, ph': Phase)
    requires |words| > START + MIN_USAGE && LoneStep(c, ph, e, c', ph')
    ensures Enabled(Lone(words, c, ph), e) && Step(Lone(words, c, ph), e) == Lone(words, c', ph')
  {
    assert [c][0 := c'] == [c'];
    hide StatusChange, AcceptOp, AcceptCmd, MeetCommand, Begin, Apply;
    if e.LinkChange? {
      assert Step(Lone(words, c, ph), e).clients == [c'];
    }
  }

  lemma LoneExtend(trace: seq<System>, events: seq<Event>, words: seq<int>, c: Client, ph: Phase,
                   e: Event, c': Client, ph': Phase)
    returns (trace': seq<System>, events': seq<Event>)
    requires |words| > START + MIN_USAGE && LoneStep(c, ph, e, c', ph')
    requires IsAnyRun(trace, events) && trace[|events|] == Lone(words, c, ph)
    ensures IsAnyRun(trace', events') && trace'[|events'|] == Lone(words, c', ph')
  {
    LoneStepIs(words, c, ph, e, c', ph');
    trace', events' := trace + [Lone(words, c', ph')], events + [e];
    hide Enabled, Step, LoneStep, IsInit, Lone;
  }

  /** A whole command of the lone client while no token is outstanding. */
  lemma LoneCommand(trace: seq<System>, events: seq<Event>, words: seq<int>, c: Client, req: Request)
    returns (trace': seq<System>, events': seq<Event>)
    requires |words| > START + MIN_USAGE && IsAnyRun(trace, events) && trace[|events|] == Lone(words, c, Away)
    requires c.link.Valid() && !c.link.notified && c.port == Port(0, [], AtRest) && !req.Frame?
    ensures IsAnyRun(trace', events') && trace'[|events'|] == Lone(words, Apply(c, req), Away)
  {
    hide IsAnyRun, Lone, Apply;
    var p3 := Port(1, [], AwaitGrant(req));
    var p4 := Port(0, [], Exchanging(req));
    trace', events' := LoneRequest(trace, events, words, c, req);
    trace', events' := LoneExtend(trace', events', words, c.(port := p3), Meeting(req, false), Granted(0),
                                  c.(port := p4), Meeting(req, false));
    ApplyKeepsPort(c, p4, req);
    trace', events' := LoneExtend(trace', events', words, c.(port := p4), Meeting(req, false), Meet(0), Apply(c, req), Away);
  }

  /** Its first half, up to the server's grant. */
  lemma LoneRequest(trace: seq<System>, events: seq<Event>, words: seq<int>, c: Client, req: Request)
    returns (trace': seq<System>, events': seq<Event>)
    requires |words| > START + MIN_USAGE && IsAnyRun(trace, events) && trace[|events|] == Lone(words, c, Away)
    requires c.link.Valid() && !c.link.notified && c.port == Port(0, [], AtRest) && !req.Frame?
    ensures IsAnyRun(trace', events')
    ensures trace'[|events'|] == Lone(words, c.(port := Port(1, [], AwaitGrant(req))), Meeting(req, false))
  {
    hide IsAnyRun, Lone, Link.Valid;
    var p0 := Port(0, [Op(true)], AwaitAck(req));
    var p1 := Port(1, [], AwaitAck(req));
    var p2 := Port(0, [Cmd(req)], AwaitGrant(req));
    var p3 := Port(1, [], AwaitGrant(req));
    assert p0.toServer[1..] == [] && p2.toServer[1..] == [];
    var t, e := LoneExtend(trace, events, words, c, Away, Start(0, req), c.(port := p0), Away);
    t, e := LoneExtend(t, e, words, c.(port := p0), Away, ServeOp(0), c.(port := p1), AwaitCmd(false));
    t, e := LoneExtend(t, e, words, c.(port := p1), AwaitCmd(false), Acked(0), c.(port := p2), AwaitCmd(false));
    t, e := LoneExtend(t, e, words, c.(port := p2), AwaitCmd(false), ServeCmd(0), c.(port := p3), Meeting(req, false));
    trace', events' := t, e;
  }

  lemma ApplyKeepsPort(c: Client, p: Port, req: Request)
    requires c.port == Port(0, [], AtRest)
    ensures Apply(c.(port := p), req).(port := p.(pc := AtRest)) == Apply(c, req).(port := p.(pc := AtRest))
    ensures p.tokens == 0 && p.toServer == [] ==> MeetCommand(c.(port := p), req, false) == (Apply(c, req), Away)
  {}

  /** From the initial state: a client subscribes, the link status changes, and the client's next
      command reaches its data rendezvous with a token still queued. */
  lemma StrayTokenRun(words: seq<int>, fifo: seq<int>, size: int) returns (trace: seq<System>, events: seq<Event>)
    requires |words| > START + MIN_USAGE && |fifo| == SLOTS
    ensures IsAnyRun(trace, events)
    ensures var s := trace[|events|];
            Enabled(s, Meet(0)) && |s.clients| == 1 && s.clients[0].port.tokens == 1 && s.clients[0].port.toServer == []
  {
    var c0 := InitClient(fifo);
    trace, events := [Lone(words, c0, Away)], [];
    LoneInit(words, fifo);
    assert IsAnyRun(trace, events);
    hide IsAnyRun, Lone;
    trace, events := LoneCommand(trace, events, words, c0, SetStatus(1));
    var c := Apply(c0, SetStatus(1)).(link := Apply(c0, SetStatus(1)).link.(wants := 2));
    trace, events := LoneExtend(trace, events, words, Apply(c0, SetStatus(1)), Away, LinkChange,
                                c.(port := Port(1, [], AtRest)), Away);
    trace, events := StrayCommand(trace, events, words, c, SetQueue(size));
    LoneMeets(words, c.(port := Port(1, [], Exchanging(SetQueue(size)))), SetQueue(size));
  }

  lemma LoneInit(words: seq<int>, fifo: seq<int>)
    requires |words| > START + MIN_USAGE && |fifo| == SLOTS
    ensures IsInit(Lone(words, InitClient(fifo), Away))
  {
    var s := Lone(words, InitClient(fifo), Away);
    assert s.clients[0].link.fifo == fifo;
  }

  lemma LoneMeets(words: seq<int>, c: Client, req: Request)
    requires |words| > START + MIN_USAGE && c.link.Valid() && c.port.pc == Exchanging(req)
    ensures var s := Lone(words, c, Meeting(req, false)); Enabled(s, Meet(0)) && s.clients == [c]
  {}

  /** A command of a client to which a token is on its way without `notified` being set. */
  lemma StrayCommand(trace: seq<System>, events: seq<Event>, words: seq<int>, c: Client, req: Request)
    returns (trace': seq<System>, events': seq<Event>)
    requires |words| > START + MIN_USAGE && IsAnyRun(trace, events)
    requires trace[|events|] == Lone(words, c.(port := Port(1, [], AtRest)), Away)
    requires c.link.Valid() && !c.link.notified && !req.Frame?
    ensures IsAnyRun(trace', events')
    ensures trace'[|events'|] == Lone(words, c.(port := Port(1, [], Exchanging(req))), Meeting(req, false))
  {
    hide IsAnyRun, Lone, Link.Valid;
    var p2 := Port(1, [Cmd(req)], AwaitGrant(req));
    var p3 := Port(0, [Cmd(req)], Exchanging(req));
    var p4 := Port(1, [], Exchanging(req));
    assert p3.toServer[1..] == [];
    var t, e := StrayRequest(trace, events, words, c, req);
    t, e := LoneExtend(t, e, words, c.(port := p2), AwaitCmd(false), Granted(0), c.(port := p3), AwaitCmd(false));
    t, e := LoneExtend(t, e, words, c.(port := p3), AwaitCmd(false), ServeCmd(0), c.(port := p4), Meeting(req, false));
    trace', events' := t, e;
  }

  /** Its first half: the stray token is taken for the acknowledgement of the operation. */
  lemma StrayRequest(trace: seq<System>, events: seq<Event>, words: seq<int>, c: Client, req: Request)
    returns (trace': seq<System>, events': seq<Event>)
    requires |words| > START + MIN_USAGE && IsAnyRun(trace, events)
    requires trace[|events|] == Lone(words, c.(port := Port(1, [], AtRest)), Away)
    requires c.link.Valid() && !c.link.notified && !req.Frame?
    ensures IsAnyRun(trace', events')
    ensures trace'[|events'|] == Lone(words, c.(port := Port(1, [Cmd(req)], AwaitGrant(req))), AwaitCmd(false))
  {
    hide IsAnyRun, Lone, Link.Valid;
    var p := Port(1, [], AtRest);
    var p0 := Port(1, [Op(true)], AwaitAck(req));
    var p1 := Port(0, [Op(true), Cmd(req)], AwaitGrant(req));
    var p2 := Port(1, [Cmd(req)], AwaitGrant(req));
    assert p1.toServer[1..] == [Cmd(req)];
    var t, e := LoneExtend(trace, events, words, c.(port := p), Away, Start(0, req), c.(port := p0), Away);
    t, e := LoneExtend(t, e, words, c.(port := p0), Away, Acked(0), c.(port := p1), Away);
    t, e := LoneExtend(t, e, words, c.(port := p1), Away, ServeOp(0), c.(port := p2), AwaitCmd(false));
    trace', events' := t, e;
  }
}
