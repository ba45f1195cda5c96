/** What mii_rx_pins takes from the line and what the ring is given: the words and the length of
    a committed record are those of the frame received. */
module Reception {
  import opened RingPool
  import opened Protocol
  import opened RxSystem
  import P = PoolSteps
  import T = PoolTheorems

  /** What the line has brought of the current frame: whole words, and the bytes of the last,
      partial one. */
  datatype Line = Line(words: seq<int>, tail: nat) {
    function Bytes(): nat { 4 * |words| + tail }
  }

  function Receive(l: Line, a: P.Action): Line {
    match a
    case StartFrame(ws) => Line(ws, 0)
    case StoreWord(w) => Line(l.words + [w], l.tail)
    case EndFrame(t) => Line(l.words, if t < 0 then 0 else t)
    case _ => l
  }

  function LineOf(actions: seq<P.Action>): Line {
    if actions == [] then Line([], 0) else Receive(LineOf(actions[..|actions| - 1]), actions[|actions| - 1])
  }

  /** The producer's record holds what the line brought; its length leaves out the four bytes of
      the CRC. */
  predicate LineInv(prod: P.Producer, l: Line) {
    match prod
    case Filling(_, f) => f == l.words && l.tail == 0 && |f| >= 6
    case Clear(_, f) => f == l.words && l.tail == 0 && |f| >= 6
    case Idle => true
    case Reserved => true
    case _ => prod.frame == l.words && |prod.frame| >= 6 && prod.length + 4 == l.Bytes() && l.tail < 4
  }

  lemma LineStep(s: P.State, a: P.Action, l: Line)
    requires P.Enabled(s, a) && LineInv(s.prod, l)
    ensures LineInv(P.Step(s, a).prod, Receive(l, a))
  {
    hide P.StoreAll, P.Store, P.Load, P.Mark;
  }

  /** The record with everything received of the frame but its CRC. */
  function Received(l: Line, addr: int): Packet { Packet(addr, l.words, l.Bytes() - 4, false, false) }

  lemma CommitStep(s: P.State, a: P.Action, l: Line)
    requires P.Enabled(s, a) && LineInv(s.prod, l) && a.StoreWrptr?
    ensures P.Step(s, a).fifo == s.fifo + [Received(l, s.pool.wrptr)]
    ensures 24 <= l.Bytes() < 4 * |l.words| + 4
  {}

  lemma {:induction false} RunLine(trace: seq<P.State>, actions: seq<P.Action>, i: nat)
    requires T.IsRun(trace, actions) && i < |trace|
    ensures LineInv(trace[i].prod, LineOf(actions[..i]))
  {
    hide P.Step, P.Enabled, LineInv;
    if i > 0 {
      RunLine(trace, actions, i - 1);
      LineStep(trace[i - 1], actions[i - 1], LineOf(actions[..i - 1]));
      assert actions[..i][..i - 1] == actions[..i - 1];
    } else {
      FirstLine(trace[0]) by { var words: seq<int> :| |words| > START + MIN_USAGE && trace[0] == P.Init(words); }
    }
  }

  lemma FirstLine(s: P.State)
    requires s.prod.Idle?
    ensures LineInv(s.prod, LineOf([]))
  {}

  /** In every run of the ring a commit appends exactly the words received of its frame, with
      the number of bytes received less the CRC as its length. */
  lemma CommittedAsReceived(trace: seq<P.State>, actions: seq<P.Action>, i: nat)
    requires T.IsRun(trace, actions) && i < |actions| && actions[i].StoreWrptr?
    ensures var l := LineOf(actions[..i]);
            && trace[i + 1].fifo == trace[i].fifo + [Packet(trace[i].pool.wrptr, l.words, 4 * |l.words| + l.tail - 4, false, false)]
            && 6 <= |l.words| && l.tail < 4
  {
    RunLine(trace, actions, i);
    hide P.Step, P.Enabled, LineInv, LineOf;
    CommitStep(trace[i], actions[i], LineOf(actions[..i]));
  }

  // ---------- in the receive path ----------

  function Hear(l: Line, e: Event): Line { if e.Memory? then Receive(l, e.act) else l }

  function LineHeard(events: seq<Event>): Line {
    if events == [] then Line([], 0) else Hear(LineHeard(events[..|events| - 1]), events[|events| - 1])
  }

  /** The frames committed, as the line brought them. */
  function FramesHeard(events: seq<Event>): seq<FrameRecord> {
    if events == [] then []
    else
      var before, l := FramesHeard(events[..|events| - 1]), LineHeard(events[..|events| - 1]);
      if events[|events| - 1] == Memory(P.StoreWrptr) then before + [FrameRecord(l.words, 4 * |l.words| + l.tail - 4)] else before
  }

  lemma EventLine(s: System, e: Event, l: Line)
    requires Enabled(s, e) && LineInv(s.ring.prod, l)
    ensures LineInv(Step(s, e).ring.prod, Hear(l, e))
    ensures if e == Memory(P.StoreWrptr) then
              && 6 <= |l.words| && l.tail < 4
              && Step(s, e).frames == s.frames + [FrameRecord(l.words, 4 * |l.words| + l.tail - 4)]
            else Step(s, e).frames == s.frames
  {
    if e.Memory? {
      LineStep(s.ring, e.act, l);
      hide P.Step;
    } else {
      hide LineInv, OfferAll, Accepting, P.Load, P.Store, Send, AcceptOp, AcceptCmd, MeetCommand, Finish, StatusChange;
    }
  }

  /** Words that came one by one. */
  function WordsOf(events: seq<Event>): seq<int> {
    if events == [] then []
    else
      var e := events[|events| - 1];
      WordsOf(events[..|events| - 1]) + if e.Memory? && e.act.StoreWord? then [e.act.word] else []
  }

  predicate Starts(e: Event) { e.Memory? && e.act.StartFrame? }

  predicate Ends(e: Event) { e.Memory? && e.act.EndFrame? }

  lemma {:induction false} WordsSince(events: seq<Event>, b: nat, i: nat, ws: seq<int>)
    requires b < i <= |events| && events[b] == Memory(P.StartFrame(ws))
    requires forall l :: b < l < i ==> !Starts(events[l])
    ensures LineHeard(events[..i]).words == ws + WordsOf(events[b + 1..i])
  {
    assert events[..i][..i - 1] == events[..i - 1];
    if i > b + 1 {
      WordsSince(events, b, i - 1, ws);
      assert events[b + 1..i][..i - b - 2] == events[b + 1..i - 1];
    }
  }

  lemma {:induction false} TailSince(events: seq<Event>, e: nat, i: nat, t: nat)
    requires e < i <= |events| && events[e] == Memory(P.EndFrame(t))
    requires forall l :: e < l < i ==> !Starts(events[l]) && !Ends(events[l])
    ensures LineHeard(events[..i]).tail == t
  {
    assert events[..i][..i - 1] == events[..i - 1];
    if i > e + 1 { TailSince(events, e, i - 1, t); }
  }
}
