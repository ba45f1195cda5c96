/** What the ring guarantees in every interleaving. */
module PoolTheorems {
  import opened RingPool
  import opened PoolSteps

  ghost predicate IsRun(trace: seq<State>, actions: seq<Action>) {
    && |trace| == |actions| + 1
    && (exists words: seq<int> :: |words| > START + MIN_USAGE && trace[0] == Init(words))
    && forall i :: 0 <= i < |actions| ==> Enabled(trace[i], actions[i]) && trace[i + 1] == Step(trace[i], actions[i])
  }

  lemma {:induction false} RunInv(trace: seq<State>, actions: seq<Action>, i: nat)
    requires IsRun(trace, actions) && i < |trace|
    ensures Inv(trace[i])
  {
    if i == 0 {
      var words: seq<int> :| |words| > START + MIN_USAGE && trace[0] == Init(words);
      InitInv(words);
    } else {
      RunInv(trace, actions, i - 1);
      StepInv(trace[i - 1], actions[i - 1]);
    }
  }

  /** In every reachable state the links read from memory lead from rdptr through exactly the
      committed, unreclaimed records, in commit order, to wrptr; the records are disjoint
      modulo wrap; empty is told apart from full; and the sentinel is intact. */
  lemma RingIsQueue(trace: seq<State>, actions: seq<Action>, i: nat, k: nat, x: int)
    requires IsRun(trace, actions) && i < |trace| && k <= |trace[i].fifo|
    ensures var r, q := trace[i].pool, trace[i].fifo;
            && Follow(r, k) == Node(r, q, k)
            && (Follow(r, k) == r.wrptr <==> k == |q|)
            && (r.rdptr == r.wrptr <==> q == [])
            && r.WellFormed()   // the sentinel, and MIN_USAGE words of slack before it
            && (k < |q| && IsWordOf(r, q[k], x) ==>
                  r.InRing(x) && forall j :: 0 <= j < |q| && j != k ==> !IsWordOf(r, q[j], x))
  {
    RunInv(trace, actions, i);
    var r, q := trace[i].pool, trace[i].fifo;
    ChainReachesWrptr(r, q, k);
    EmptyIffPointersMeet(r, q);
    if k < |q| && IsWordOf(r, q[k], x) { RecordsDisjoint(r, q, k, x); }
  }

  /** The abstract queue: commit appends a live record, a release marks a record, and only a
      released record leaves, from the front. */
  ghost predicate QueueStep(q: seq<Packet>, q': seq<Packet>, freeing: Freer) {
    || q' == q
    || (|q'| == |q| + 1 && q'[..|q|] == q && !q'[|q|].freed && !q'[|q|].staged)
    || (exists i :: 0 <= i < |q| && !q[i].staged && q' == q[i := q[i].(staged := true)])
    || (exists i :: 0 <= i < |q| && freeing == AtHead(q[i].addr, true) && q' == q[i := q[i].(freed := true)])
    || (|q| > 0 && (q[0].freed || freeing == AtHead(q[0].addr, true)) && q' == q[1..])
  }

  /** Every action of every interleaving refines a step of the abstract queue.  In particular
      mii_free never reclaims a record that its owner has not freed, whatever a concurrent
      mii_commit does between its tests. */
  lemma StepRefinesQueue(s: State, a: Action)
    requires Inv(s) && Enabled(s, a)
    ensures QueueStep(s.fifo, Step(s, a).fifo, s.freer)
    ensures s.pool.rdptr != Step(s, a).pool.rdptr ==> Step(s, a).fifo == s.fifo[1..]
  {
    hide ProducerInv;
    match a
    case FreeHead =>
      FreeHeadStep(s);
      if s.freer.h != s.pool.rdptr {
        FreeHeadView(s);
        var i := LiveIndex(s.fifo, s.freer.h);
        MarkIsUpdate(s.pool, s.fifo, i);
        assert Step(s, a).fifo == s.fifo[i := s.fifo[i].(freed := true)];
      }
    case SetStage(i) =>
      assert Step(s, a).fifo == s.fifo[i := s.fifo[i].(staged := true)];
    case StoreWrptr =>
      assert Step(s, a).fifo[..|s.fifo|] == s.fifo;
    case _ =>
  }

  /** The order of the two tests at line 179: when hdr differed from wrptr, the link word read
      next was already published, so its sign says whether the record was freed. */
  lemma LinkReadIsPublished(s: State)
    requires Inv(s) && s.freer.AtNext?
    ensures |s.fifo| > 0 && s.fifo[0].addr == s.freer.h
    ensures Abs(Load(s.pool, s.freer.h)) == Node(s.pool, s.fifo, 1) > 0
    ensures Load(s.pool, s.freer.h) > 0 <==> !s.fifo[0].freed
  {
    assert RecordAt(s.pool, s.fifo, 0);
  }

  /** A successful commit appends its record, never makes the pool look empty, and keeps the
      slack before the end; this includes commits that wrap. */
  lemma CommitNeverLooksEmpty(s: State)
    requires Inv(s) && s.prod.Publishing?
    ensures var s' := Step(s, StoreWrptr);
            && s'.fifo == s.fifo + [Packet(s.pool.wrptr, s.prod.frame, s.prod.length, false, false)]
            && s'.pool.rdptr != s'.pool.wrptr
            && s'.pool.End() - s'.pool.wrptr >= MIN_USAGE
  {
    CommitStep(s, StoreWrptr);
    EmptyIffPointersMeet(Step(s, StoreWrptr).pool, Step(s, StoreWrptr).fifo);
  }

  // ---------- reclamation terminates ----------

  /** Length of the freed prefix. */
  function FreedPrefix(q: seq<Packet>): nat {
    if q != [] && q[0].freed then 1 + FreedPrefix(q[1..]) else 0
  }

  /** What mii_free still has to do. */
  function FreeRank(s: State): nat {
    match s.freer
    case NotFreeing => 0
    case AtHead(h, _) => 3 * FreedPrefix(Mark(s.fifo, h)) + 1
    case AtNext(_) => 3 * FreedPrefix(s.fifo) + 2
    case AtWrptr(_) => 3 * FreedPrefix(s.fifo) + 3
  }

  lemma {:induction false} PrefixAfterAppend(q: seq<Packet>, p: Packet)
    requires !p.freed
    ensures FreedPrefix(q + [p]) == FreedPrefix(q)
  {
    if q != [] {
      PrefixAfterAppend(q[1..], p);
      assert (q + [p])[1..] == q[1..] + [p];
    }
  }

  lemma {:induction false} SamePrefix(q: seq<Packet>, q': seq<Packet>)
    requires |q| == |q'| && forall i :: 0 <= i < |q| ==> q'[i].freed == q[i].freed
    ensures FreedPrefix(q') == FreedPrefix(q)
  {
    if q != [] { SamePrefix(q[1..], q'[1..]); }
  }

  /** A record the producer appends is not the one being freed. */
  lemma AppendIsOther(s: State)
    requires Inv(s) && s.freer.AtHead?
    ensures s.freer.h != s.pool.wrptr
  {}

  lemma HeadRank(s: State)
    requires Inv(s) && s.freer.AtHead? && s.freer.h == s.pool.rdptr
    ensures |s.fifo| > 0 && FreedPrefix(Mark(s.fifo, s.freer.h)) == 1 + FreedPrefix(s.fifo[1..])
  {
    FreeHeadView(s);
    hide Inv;
    SamePrefix(s.fifo[1..], Mark(s.fifo, s.freer.h)[1..]);
  }

  lemma MarkFreedHead(s: State)
    requires Inv(s) && |s.fifo| > 0 && s.fifo[0].freed
    ensures FreedPrefix(Mark(s.fifo, s.fifo[0].addr)) == FreedPrefix(s.fifo)
  {
    MarkIsUpdate(s.pool, s.fifo, 0);
    SamePrefix(s.fifo, Mark(s.fifo, s.fifo[0].addr));
  }

  lemma OthersKeepRank(s: State, a: Action)
    requires Inv(s) && Enabled(s, a) && !a.CallFree? && !a.FreeHead? && !a.FreeNext?
    ensures a.FreeWrptr? ==> FreeRank(Step(s, a)) < FreeRank(s)
    ensures !a.FreeWrptr? ==> FreeRank(Step(s, a)) == FreeRank(s)
  {
    hide Chain, ProducerInv;
    var q, q' := s.fifo, Step(s, a).fifo;
    if a.StoreWrptr? {
      var p := Packet(s.pool.wrptr, s.prod.frame, s.prod.length, false, false);
      PrefixAfterAppend(q, p);
      if s.freer.AtHead? {
        AppendIsOther(s);
        assert Mark(q', s.freer.h) == Mark(q, s.freer.h) + [p];
        PrefixAfterAppend(Mark(q, s.freer.h), p);
      }
    } else if a.SetStage? {
      SamePrefix(q, q');
      if s.freer.AtHead? { SamePrefix(Mark(q, s.freer.h), Mark(q', s.freer.h)); }
    }
  }

  /** Every step of mii_free brings it closer to the end, and no step of anyone else takes
      it further away: the reclaiming loop terminates, with the pool empty or a live record
      at the front. */
  lemma FreeTerminates(s: State, a: Action)
    requires Inv(s) && Enabled(s, a) && !a.CallFree?
    ensures a.FreeHead? || a.FreeWrptr? || a.FreeNext? ==> FreeRank(Step(s, a)) < FreeRank(s)
    ensures !(a.FreeHead? || a.FreeWrptr? || a.FreeNext?) ==> FreeRank(Step(s, a)) == FreeRank(s)
    ensures FreeRank(Step(s, a)) == 0 ==> Settled(Step(s, a).fifo)
  {
    StepInv(s, a);
    var s' := Step(s, a);
    if a.FreeHead? {
      FreeHeadView(s);
      if s.freer.h == s.pool.rdptr { HeadRank(s); }
    } else if a.FreeNext? {
      LinkReadIsPublished(s);
      if s.fifo[0].freed { MarkFreedHead(s); }
    } else {
      OthersKeepRank(s, a);
    }
  }
}
