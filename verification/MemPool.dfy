/** mii_malloc.c as an object: the pool array is updated in place, and every operation is
    proved against the queue of committed records. */
module MemPool {
  import opened RingPool
  import opened PoolSteps

  /** Drop the freed prefix. */
  function Reclaim(q: seq<Packet>): (r: seq<Packet>)
    ensures Settled(r)
  {
    if q != [] && q[0].freed then Reclaim(q[1..]) else q
  }

  /** space_left of mii_reserve_at_least, in words. */
  function SpaceLeft(r: Pool): int {
    if r.rdptr - r.wrptr <= 0 then r.rdptr - r.wrptr + (r.End() - START) else r.rdptr - r.wrptr
  }

  /** A record of len words may be committed: it stays strictly before rdptr and mii_commit
      will not discard it. */
  predicate Fits(r: Pool, len: int) {
    r.Off(r.wrptr) + len < r.Size() && !(NearEnd(r, r.Word(r.wrptr, len)) && r.atStart)
  }

  class MemPool {
    var rdptr: int
    var wrptr: int
    var atStart: bool
    const mem: array<int>
    ghost var fifo: seq<Packet>

    ghost function View(): Pool
      reads this, mem
    {
      Pool(rdptr, wrptr, atStart, mem[..])
    }

    ghost predicate Valid()
      reads this, mem
    {
      Chain(View(), fifo) && Settled(fifo)
    }

    /** mii_init_mempool on the words of `words`. */
    constructor (words: array<int>)
      requires words.Length > START + MIN_USAGE
      modifies words
      ensures Valid() && mem == words && fifo == [] && rdptr == wrptr == START
    {
      rdptr, wrptr, atStart := START, START, true;
      mem := words;
      fifo := [];
      new;
      mem[START] := 0;
      mem[mem.Length - 1] := START;
    }

    /** mii_reserve_at_least; minSize counts bytes, the allocator header included; 0 means no
        buffer.  A size of one word or less may be granted in front of the oldest record, whose
        link the owner word then overwrites. */
    method ReserveAtLeast(minSize: int) returns (buf: int)
      requires Valid()
      modifies mem
      ensures Valid() <==> !(rdptr == wrptr + 1 && minSize <= 4)
      ensures buf == if 4 * SpaceLeft(View()) < minSize + (if rdptr == START then 4 * MIN_USAGE else 0)
                     then 0 else wrptr + HEADER
      // a shorter record will be committed, wherever it ends
      ensures buf != 0 ==> forall len :: DATA <= len && 4 * len < minSize ==> Fits(View(), len)
      ensures buf != 0 ==> View() == Owned(old(View()))
      ensures buf == 0 ==> View() == old(View())
    {
      var need := minSize;
      var spaceLeft := rdptr - wrptr;
      if spaceLeft <= 0 {
        spaceLeft := spaceLeft + (mem.Length - 1 - START);
      }
      if rdptr == START {
        need := need + 4 * MIN_USAGE;
      }
      if 4 * spaceLeft < need {
        return 0;
      }
      ghost var r := View();
      mem[wrptr + INFO] := DESCRIPTOR;
      assert View() == Owned(r);
      OwnWord(r, fifo);
      ReserveGrants(View(), minSize);
      return wrptr + HEADER;
    }

    /** mii_reserve. */
    method Reserve() returns (buf: int, endPtr: int)
      requires Valid()
      modifies mem
      ensures Valid()
      ensures buf == 0 <==> wrptr < rdptr < wrptr + MIN_USAGE
      ensures buf != 0 ==> buf == wrptr + HEADER && endPtr == rdptr && Room(View(), MIN_USAGE)
      ensures View() == if buf == 0 then old(View()) else Owned(old(View()))
    {
      endPtr := 0;
      if rdptr > wrptr {
        var spaceLeft := rdptr - wrptr;
        if spaceLeft < MIN_USAGE {
          return 0, endPtr;
        }
      }
      ghost var r := View();
      mem[wrptr + INFO] := DESCRIPTOR;
      assert View() == Owned(r);
      OwnWord(r, fifo);
      ReserveRoom(r);
      return wrptr + HEADER, rdptr;
    }

    /** mii_commit of the record being filled at wrptr, whose data words are `data` and whose
        length word is `length`; endPtr0 is the address after its last word.  A record that
        uses every word up to rdptr is committed all the same: the pool then looks empty. */
    method Commit(buf: int, endPtr0: int, ghost data: seq<int>, ghost length: int) returns (ok: bool)
      requires Valid() && buf == wrptr + HEADER
      requires View().Off(wrptr) + DATA + |data| <= View().Size()
      requires endPtr0 == View().Word(wrptr, DATA + |data|)
      requires Holds(View(), wrptr, data)
      requires mem[wrptr + INFO] == DESCRIPTOR && mem[wrptr + LENGTH] == length && 0 <= length && (length + 3) / 4 <= |data|
      modifies this`wrptr, this`fifo, mem
      ensures ok <==> !(NearEnd(old(View()), endPtr0) && old(rdptr) == START)
      ensures fifo == old(fifo) + (if ok then [Packet(old(wrptr), data, length, false, false)] else [])
      ensures ok ==> wrptr == if NearEnd(old(View()), endPtr0) then START else endPtr0
      ensures ok ==> (rdptr == wrptr <==> DATA + |data| == SpaceLeft(old(View())))
      ensures Valid() <==> (ok ==> DATA + |data| != SpaceLeft(old(View())))
      ensures !ok ==> View() == old(View())
    {
      var hdr := buf - HEADER;
      var info := mem[hdr + INFO];
      assert info == DESCRIPTOR;
      var endPtr := endPtr0;
      ghost var r := View();
      EndWord(r, DATA + |data|);
      if DATA + |data| < SpaceLeft(r) { CommitChain(r, fifo, data, length); }
      if mem.Length - 1 - endPtr < MIN_USAGE {
        if atStart {
          return false;
        }
        endPtr := START;
      }
      mem[buf + STAGE - HEADER] := 0;
      mem[hdr] := endPtr;
      wrptr := endPtr;
      fifo := fifo + [Packet(hdr, data, length, false, false)];
      assert View() == Committed(r, endPtr);
      if !(NearEnd(r, endPtr0) && r.atStart) { ExactFitLooksEmptyIff(r, old(fifo), DATA + |data|); }
      if rdptr == wrptr {
        NoChainWhenMet(View(), fifo);
      }
      return true;
    }

    /** mii_free: the record is marked, and the whole freed prefix is reclaimed. */
    method Free(buf: int)
      requires Valid() && IsLive(fifo, buf - HEADER)
      modifies this`rdptr, this`atStart, this`fifo, mem
      ensures Valid()
      ensures fifo == Reclaim(Mark(old(fifo), buf - HEADER))
      ensures forall len :: DATA <= len && old(Fits(View(), len)) ==> Fits(View(), len)
    {
      hide Chain, Fits, Mark, Reclaim;
      var hdr := buf - HEADER;
      LiveOwner(View(), fifo, hdr);
      var info := mem[hdr + INFO];
      assert info == DESCRIPTOR;
      ghost var q0, r0 := fifo, View();
      ghost var first := true;
      while true
        invariant Chain(View(), fifo) && wrptr == old(wrptr) && |mem[..]| == |r0.mem|
        invariant first ==> fifo == q0
        invariant !first ==> |fifo| > 0 && fifo[0].addr == hdr == rdptr && fifo[0].freed
                             && Reclaim(fifo) == Reclaim(Mark(q0, buf - HEADER))
        invariant first ==> hdr == buf - HEADER && IsLive(fifo, hdr) && Settled(fifo)
        invariant forall len :: DATA <= len && Fits(r0, len) ==> Fits(View(), len)
        decreases |fifo|
      {
        ghost var r, q := View(), fifo;
        if hdr == rdptr {
          FreeHeadFacts(r, q, hdr, first);
          var oldHdr := hdr;
          var next := mem[hdr];
          if next < 0 {
            next := -next;
          }
          hdr := next;
          rdptr := hdr;
          atStart := rdptr == START;
          mem[oldHdr] := 0;
          fifo := fifo[1..];
          first := false;
          assert View() == Advanced(r);
          if hdr == wrptr || mem[hdr] > 0 {
            break;
          }
        } else {
          FreeMarkFacts(r, q, hdr);
          mem[hdr] := -mem[hdr];
          fifo := Mark(fifo, hdr);
          assert View() == Negated(r, hdr);
          break;
        }
      }
    }

    /** mii_packet_set_tcount of record k. */
    method SetTcount(buf: int, count: int, ghost k: nat)
      requires Valid() && k < |fifo| && buf == fifo[k].addr + HEADER
      modifies mem
      ensures Valid()
      ensures mem[..] == old(mem[..])[buf + TCOUNT - HEADER := count]
    {
      ghost var r := View();
      HeaderWrite(r, fifo, k, TCOUNT, count);
      assert r.Usable(fifo[k].addr);
      mem[buf + TCOUNT - HEADER] := count;
      assert View() == r.(mem := r.mem[fifo[k].addr + TCOUNT := count]);
    }

    /** get_and_dec_transmit_count of record k: the count before, which is taken down by one
        but not below zero. */
    method GetAndDecTransmitCount(buf: int, ghost k: nat) returns (count: int)
      requires Valid() && k < |fifo| && buf == fifo[k].addr + HEADER
      modifies mem
      ensures Valid()
      ensures count == old(mem[..])[buf + TCOUNT - HEADER]
      ensures mem[..] == old(mem[..])[buf + TCOUNT - HEADER := if count == 0 then 0 else count - 1]
    {
      assert View().Usable(fifo[k].addr);
      count := mem[buf + TCOUNT - HEADER];
      if count != 0 {
        SetTcount(buf, count - 1, k);
      }
    }

    /** mii_get_next_buf: the oldest committed record, 0 when there is none. */
    method GetNextBuf() returns (buf: int)
      requires Valid()
      ensures buf == if fifo == [] then 0 else fifo[0].addr + HEADER
    {
      EmptyIffPointersMeet(View(), fifo);
      if rdptr == wrptr {
        return 0;
      }
      return rdptr + HEADER;
    }

    /** mii_update_my_rdptr: a cursor on live record k moves to the next record boundary. */
    method UpdateMyRdptr(rdptr0: int, ghost k: nat) returns (next: int)
      requires Valid() && k < |fifo| && rdptr0 == fifo[k].addr && !fifo[k].freed
      ensures next > 0 && next == Node(View(), fifo, k + 1)
    {
      assert RecordAt(View(), fifo, k);
      next := mem[rdptr0];
    }

    /** mii_packet_get_data: the n-th data word of record k. */
    method PacketGetData(buf: int, n: int, ghost k: nat) returns (word: int)
      requires Valid() && k < |fifo| && buf == fifo[k].addr + HEADER && 0 <= n < |fifo[k].data|
      ensures word == fifo[k].data[n]
    {
      assert RecordAt(View(), fifo, k);
      assert View().mem[View().Word(fifo[k].addr, DATA + n)] == fifo[k].data[n];
      var info := mem[buf - HEADER + INFO];
      assert info == DESCRIPTOR;
      var p := buf + n + (DATA - HEADER);
      if p >= mem.Length - 1 {
        p := p - (mem.Length - 1 - START);
      }
      word := mem[p];
    }
  }

  // ---------- facts behind the methods ----------

  /** The pool after hdr->info = info. */
  function Owned(r: Pool): Pool { Store(r, r.wrptr + INFO, DESCRIPTOR) }

  /** The owner word of a new record spares the committed ones, unless the oldest of them
      follows immediately. */
  lemma OwnWord(r: Pool, q: seq<Packet>)
    requires Chain(r, q)
    ensures Chain(Owned(r), q) <==> r.rdptr != r.wrptr + INFO
    ensures Owned(r).WellFormed() && r.InRing(r.wrptr + INFO)
  {
    ChainFormed(r, q);
    if r.rdptr != r.wrptr + INFO {
      hide Chain;
      StoreFree(r, q, r.wrptr + INFO, DESCRIPTOR);
    } else {
      OverwrittenLink(r, q);
    }
  }

  lemma OverwrittenLink(r: Pool, q: seq<Packet>)
    requires Chain(r, q) && r.rdptr == r.wrptr + INFO
    ensures !Chain(Owned(r), q)
  {
    EmptyIffPointersMeet(r, q);
    assert r.Usable(Node(r, q, 1));
    hide Holds;
    assert !RecordAt(Owned(r), q, 0);
  }

  lemma LiveOwner(r: Pool, q: seq<Packet>, h: int)
    requires Chain(r, q) && IsLive(q, h)
    ensures 0 <= h && h + INFO < |r.mem| && r.mem[h + INFO] == DESCRIPTOR
  {
    var i := LiveIndex(q, h);
    assert RecordAt(r, q, i);
  }

  /** The word after a record lies in the ring. */
  lemma EndWord(r: Pool, len: int)
    requires r.WellFormed() && DATA <= len && r.Off(r.wrptr) + len <= r.Size()
    ensures r.InRing(r.Word(r.wrptr, len)) && (len == SpaceLeft(r) ==> r.Word(r.wrptr, len) == r.rdptr)
    ensures len <= SpaceLeft(r) && (r.Off(r.wrptr) + len < r.Size() <==> len < SpaceLeft(r))
  {}

  lemma NoChainWhenMet(r: Pool, q: seq<Packet>)
    requires r.rdptr == r.wrptr && q != []
    ensures !Chain(r, q)
  {
    if Chain(r, q) { EmptyIffPointersMeet(r, q); }
  }

  /** A successful mii_reserve_at_least grants every shorter record. */
  lemma ReserveGrants(r: Pool, minSize: int)
    requires r.WellFormed()
    requires 4 * SpaceLeft(r) >= minSize + (if r.rdptr == START then 4 * MIN_USAGE else 0)
    ensures forall len :: DATA <= len && 4 * len < minSize ==> Fits(r, len)
  {}

  /** The grant survives reclamation: frees only move rdptr away from the record, and never
      onto the start when the record reaches the end. */
  lemma AdvanceKeepsFits(r: Pool, q: seq<Packet>)
    requires Chain(r, q) && |q| > 0
    ensures Advanced(r).wrptr == r.wrptr
    ensures forall len :: DATA <= len && Fits(r, len) ==> Fits(Advanced(r), len)
  {
    OffAfterAdvance(r, q, r.wrptr);
    Advance(r, q);
    forall len | DATA <= len && Fits(r, len)
      ensures Fits(Advanced(r), len)
    {
      GrantKept(r, Advanced(r), len);
    }
  }

  lemma GrantKept(r: Pool, r': Pool, len: int)
    requires r.WellFormed() && r'.WellFormed() && |r.mem| == |r'.mem| && r'.wrptr == r.wrptr
    requires DATA <= len && Fits(r, len) && r'.Off(r.wrptr) < r.Off(r.wrptr)
    ensures Fits(r', len)
  {}

  /** The same in every interleaving: only a commit uses the grant up. */
  lemma GrantSurvivesStep(s: State, a: Action, len: int)
    requires Inv(s) && Enabled(s, a) && DATA <= len && Fits(s.pool, len) && !a.StoreWrptr?
    ensures Fits(Step(s, a).pool, len)
  {
    if a.FreeHead? && s.freer.h == s.pool.rdptr {
      HeadAdvances(s);
      hide Fits, Inv, Step;
      AdvanceKeepsFits(s.pool, s.fifo);
    } else {
      PointersKept(s, a);
      hide Inv, Step;
    }
  }

  lemma HeadAdvances(s: State)
    requires Inv(s) && s.freer.AtHead? && s.freer.h == s.pool.rdptr
    ensures Chain(s.pool, s.fifo) && |s.fifo| > 0 && Step(s, FreeHead).pool == Advanced(s.pool)
  {
    FreeHeadStep(s);
    hide ProducerInv, FreerInv;
    assert RecordAt(s.pool, s.fifo, 0);
  }

  lemma PointersKept(s: State, a: Action)
    requires Enabled(s, a) && !a.StoreWrptr? && !(a.FreeHead? && s.freer.h == s.pool.rdptr)
    ensures var r, r' := s.pool, Step(s, a).pool;
            r'.rdptr == r.rdptr && r'.wrptr == r.wrptr && r'.atStart == r.atStart && |r'.mem| == |r.mem|
  {
    hide StoreAll;
  }

  /** What a grant of len words means for the producer wherever it is in its frame: no word of
      the record is refused, mii_commit does not discard it, and publishing appends it without
      making the pool look empty. */
  ghost predicate Granted(s: State, len: int)
    requires Inv(s)
  {
    match s.prod
    case Filling(d, f) => DATA + |f| < len ==> Step(s, PollWord).prod == Clear(d, f)
    case Closing(d, f, n) => DATA + |f| == len ==> forall w :: Step(s, StoreTail(w)).prod == Tailed(d, f, n)
    case Tailed(d, f, n) => DATA + |f| == len ==> Step(s, Decide).prod.Linking?
    case Publishing(_, f, n) =>
      var s' := Step(s, StoreWrptr);
      s'.fifo == s.fifo + [Packet(s.pool.wrptr, f, n, false, false)] && s'.pool.rdptr != s'.pool.wrptr && Inv(s')
    case _ => true
  }

  lemma FitsIsGranted(s: State, len: int)
    requires Inv(s) && Fits(s.pool, len)
    ensures Granted(s, len)
  {
    var r, p := s.pool, s.prod;
    if p.Filling? || p.Closing? {
      OffOfPointer(r, p.dptr, p.frame);
    } else if p.Publishing? {
      CommitStep(s, StoreWrptr);
      EmptyIffPointersMeet(Step(s, StoreWrptr).pool, Step(s, StoreWrptr).fifo);
    }
  }

  /** After mii_reserve_at_least(minSize) succeeds, whatever the producer, the frees, the filter
      and the server do before the next commit, a record of fewer than minSize bytes can be
      stored to its end, is not discarded, and is published. */
  lemma {:induction false} ReserveThenCommit(trace: seq<State>, actions: seq<Action>, minSize: int, len: int)
    requires |trace| == |actions| + 1 && Inv(trace[0])
    requires 4 * SpaceLeft(trace[0].pool)
             >= minSize + (if trace[0].pool.rdptr == START then 4 * MIN_USAGE else 0)
    requires DATA <= len && 4 * len < minSize
    requires forall i :: 0 <= i < |actions| ==>
               && Enabled(trace[i], actions[i]) && trace[i + 1] == Step(trace[i], actions[i])
               && !actions[i].StoreWrptr?
    ensures Inv(trace[|actions|]) && Fits(trace[|actions|].pool, len) && Granted(trace[|actions|], len)
  {
    var n := |actions|;
    if n == 0 {
      ReserveGrants(trace[0].pool, minSize);
    } else {
      ReserveThenCommit(trace[..n], actions[..n - 1], minSize, len);
      hide Fits, Inv, Enabled, Step, Granted;
      assert trace[n] == Step(trace[n - 1], actions[n - 1]);
      StepInv(trace[n - 1], actions[n - 1]);
      GrantSurvivesStep(trace[n - 1], actions[n - 1], len);
    }
    hide Fits, Inv, Granted;
    FitsIsGranted(trace[n], len);
  }

  /** An exact fit, which mii_reserve_at_least accepts when rdptr is not at the start, is the
      one length whose commit makes the pool look empty. */
  lemma ExactFitLooksEmptyIff(r: Pool, q: seq<Packet>, len: int)
    requires Chain(r, q) && DATA <= len <= SpaceLeft(r)
    requires !(NearEnd(r, r.Word(r.wrptr, len)) && r.atStart)
    ensures var endp := if NearEnd(r, r.Word(r.wrptr, len)) then START else r.Word(r.wrptr, len);
            endp == r.rdptr <==> len == SpaceLeft(r)
  {}

  /** The pool after the stores of mii_commit. */
  function Committed(r: Pool, endp: int): Pool {
    Store(Store(r, r.wrptr + STAGE, 0), r.wrptr, endp).(wrptr := endp)
  }

  lemma CommitChain(r: Pool, q: seq<Packet>, data: seq<int>, length: int)
    requires Chain(r, q) && r.Off(r.wrptr) + DATA + |data| < r.Size() && Holds(r, r.wrptr, data)
    requires r.mem[r.wrptr + INFO] == DESCRIPTOR && r.mem[r.wrptr + LENGTH] == length
    requires 0 <= length && (length + 3) / 4 <= |data|
    ensures var d := r.Word(r.wrptr, DATA + |data|);
            var endp := if NearEnd(r, d) then START else d;
            && r.InRing(d)
            && (!(NearEnd(r, d) && r.atStart) ==>
                  Chain(Committed(r, endp), q + [Packet(r.wrptr, data, length, false, false)]))
  {
    var d := r.Word(r.wrptr, DATA + |data|);
    OffOfWord(r, r.wrptr, DATA + |data|);
    if !(NearEnd(r, d) && r.atStart) {
      var endp := if NearEnd(r, d) then START else d;
      EndPlaced(r, q, DATA + |data|);
      LinkRecord(r, q, data, length, endp);
    }
  }

  /** The header words mii_commit relies on or has stored, before the link. */
  predicate HeaderReady(r: Pool, length: int)
    requires r.WellFormed()
  {
    r.mem[r.wrptr + INFO] == DESCRIPTOR && r.mem[r.wrptr + LENGTH] == length && r.mem[r.wrptr + STAGE] == 0
  }

  lemma LinkRecord(r: Pool, q: seq<Packet>, data: seq<int>, length: int, endp: int)
    requires Chain(r, q) && r.Usable(endp) && r.Off(r.wrptr) + DATA + |data| <= r.Off(endp)
    requires Holds(r, r.wrptr, data) && r.mem[r.wrptr + INFO] == DESCRIPTOR && r.mem[r.wrptr + LENGTH] == length
    requires 0 <= length && (length + 3) / 4 <= |data|
    ensures Chain(Committed(r, endp), q + [Packet(r.wrptr, data, length, false, false)])
  {
    StageCleared(r, q, data, length, endp);
    var r1 := Store(r, r.wrptr + STAGE, 0);
    var r2 := Store(r1, r1.wrptr, endp);
    assert r2.wrptr == r1.wrptr == r.wrptr && Committed(r, endp) == r2.(wrptr := endp);
    hide Chain, Holds, HeaderReady, Pool.Usable, Pool.Off, Pool.WellFormed, Store, Committed;
    LinkStored(r1, q, data, length, endp);
    PublishRecord(r2, q, data, length, endp);
  }

  lemma StageCleared(r: Pool, q: seq<Packet>, data: seq<int>, length: int, endp: int)
    requires Chain(r, q) && r.Usable(endp) && r.Off(r.wrptr) + DATA + |data| <= r.Off(endp) && Holds(r, r.wrptr, data)
    requires r.mem[r.wrptr + INFO] == DESCRIPTOR && r.mem[r.wrptr + LENGTH] == length
    ensures var r1 := Store(r, r.wrptr + STAGE, 0);
            && r1.WellFormed() && Chain(r1, q) && Holds(r1, r1.wrptr, data) && HeaderReady(r1, length)
            && r1.Usable(endp) && r1.Off(r1.wrptr) + DATA + |data| <= r1.Off(endp)
  {
    ChainFormed(r, q);
    hide Chain, Holds;
    StoreAside(r, q, r.wrptr + STAGE, 0, data);
  }

  lemma LinkStored(r: Pool, q: seq<Packet>, data: seq<int>, length: int, endp: int)
    requires Chain(r, q) && r.Usable(endp) && r.Off(r.wrptr) + DATA + |data| <= r.Off(endp) && Holds(r, r.wrptr, data)
    requires HeaderReady(r, length)
    ensures var r2 := Store(r, r.wrptr, endp);
            && r2.WellFormed() && Chain(r2, q) && Holds(r2, r2.wrptr, data) && HeaderReady(r2, length)
            && r2.Usable(endp) && r2.Off(r2.wrptr) + DATA + |data| <= r2.Off(endp) && r2.mem[r2.wrptr] == endp
  {
    ChainFormed(r, q);
    hide Chain, Holds;
    StoreAside(r, q, r.wrptr, endp, data);
  }

  lemma PublishRecord(r: Pool, q: seq<Packet>, data: seq<int>, length: int, endp: int)
    requires Chain(r, q) && r.Usable(endp) && r.Off(r.wrptr) + DATA + |data| <= r.Off(endp)
    requires Holds(r, r.wrptr, data) && HeaderReady(r, length) && r.mem[r.wrptr] == endp
    requires 0 <= length && (length + 3) / 4 <= |data|
    ensures Chain(r.(wrptr := endp), q + [Packet(r.wrptr, data, length, false, false)])
  {
    Publish(r, q, Packet(r.wrptr, data, length, false, false), endp);
  }

  /** The end pointer mii_commit settles on lies after the record in ring order. */
  lemma EndPlaced(r: Pool, q: seq<Packet>, len: int)
    requires Chain(r, q) && DATA <= len && r.Off(r.wrptr) + len < r.Size()
    requires !(NearEnd(r, r.Word(r.wrptr, len)) && r.atStart)
    ensures var endp := if NearEnd(r, r.Word(r.wrptr, len)) then START else r.Word(r.wrptr, len);
            r.Usable(endp) && r.Off(r.wrptr) + len <= r.Off(endp)
    ensures r.WellFormed()
  {
    OffOfWord(r, r.wrptr, len);
  }

  /** One reclaiming iteration of mii_free. */
  lemma FreeHeadFacts(r: Pool, q: seq<Packet>, h: int, first: bool)
    requires Chain(r, q) && h == r.rdptr && (first ==> IsLive(q, h)) && (!first ==> |q| > 0 && q[0].freed)
    ensures r.WellFormed() && |q| > 0 && 0 <= h < |r.mem| && 0 <= Abs(r.mem[h]) < |r.mem|
    ensures Chain(Advanced(r), q[1..]) && Advanced(r).wrptr == r.wrptr
    ensures Reclaim(if first then Mark(q, h) else q) == Reclaim(q[1..])
    ensures Settled(q[1..]) ==> Reclaim(q[1..]) == q[1..]
    ensures forall len :: DATA <= len && Fits(r, len) ==> Fits(Advanced(r), len)
    ensures Advanced(r).rdptr == r.wrptr <==> q[1..] == []
    ensures q[1..] != [] ==> q[1].addr == Advanced(r).rdptr && (Advanced(r).mem[q[1].addr] > 0 <==> !q[1].freed)
  {
    assert |q| > 0;
    ReclaimHead(r, q, h);
    assert RecordAt(r, q, 0);
    Advance(r, q);
    AdvanceKeepsFits(r, q);
    HeadLink(Advanced(r), q[1..]);
  }

  /** The marking branch of mii_free. */
  lemma FreeMarkFacts(r: Pool, q: seq<Packet>, h: int)
    requires Chain(r, q) && Settled(q) && IsLive(q, h) && h != r.rdptr
    ensures 0 <= h < |r.mem| && Chain(Negated(r, h), Mark(q, h)) && Settled(Mark(q, h))
    ensures Reclaim(Mark(q, h)) == Mark(q, h)
    ensures forall len :: DATA <= len && Fits(r, len) ==> Fits(Negated(r, h), len)
  {
    var i := LiveIndex(q, h);
    MarkFreed(r, q, i);
    MarkIsUpdate(r, q, i);
    assert q[0].addr == r.rdptr;
  }

  lemma HeadLink(r: Pool, q: seq<Packet>)
    requires Chain(r, q)
    ensures r.rdptr == r.wrptr <==> q == []
    ensures q != [] ==> q[0].addr == r.rdptr && (r.mem[r.rdptr] > 0 <==> !q[0].freed)
  {
    EmptyIffPointersMeet(r, q);
    if q != [] { assert RecordAt(r, q, 0); }
  }

  /** Freeing the oldest record drops it and what was already freed behind it. */
  lemma ReclaimHead(r: Pool, q: seq<Packet>, h: int)
    requires Chain(r, q) && |q| > 0 && h == r.rdptr
    ensures Reclaim(Mark(q, h)) == Reclaim(q[1..])
  {
    MarkIsUpdate(r, q, 0);
    assert Mark(q, h)[1..] == q[1..];
  }

  // ---------- freeing everything, in any order ----------

  function FreeAll(q: seq<Packet>, addrs: seq<int>): seq<Packet> {
    if addrs == [] then q else Reclaim(Mark(FreeAll(q, addrs[..|addrs| - 1]), addrs[|addrs| - 1]))
  }

  function MarkAll(q: seq<Packet>, addrs: set<int>): (m: seq<Packet>)
    ensures |m| == |q|
  {
    seq(|q|, i requires 0 <= i < |q| => if q[i].addr in addrs then q[i].(freed := true) else q[i])
  }

  /** Marking commutes with reclaiming. */
  lemma {:induction false} MarkReclaimed(q: seq<Packet>, a: int)
    ensures Reclaim(Mark(Reclaim(q), a)) == Reclaim(Mark(q, a))
  {
    if q != [] && q[0].freed {
      MarkReclaimed(q[1..], a);
      assert Mark(q, a)[1..] == Mark(q[1..], a);
    }
  }

  /** The order of frees does not matter: only which records were freed. */
  lemma {:induction false} FreeAllIsMarkAll(q: seq<Packet>, addrs: seq<int>)
    requires Settled(q)
    ensures FreeAll(q, addrs) == Reclaim(MarkAll(q, set a | a in addrs))
  {
    if addrs == [] {
      assert MarkAll(q, set a | a in addrs) == q;
    } else {
      var n := |addrs| - 1;
      var before := set a | a in addrs[..n];
      FreeAllIsMarkAll(q, addrs[..n]);
      MarkReclaimed(MarkAll(q, before), addrs[n]);
      assert (set a | a in addrs) == before + {addrs[n]} by { assert addrs == addrs[..n] + [addrs[n]]; }
      assert Mark(MarkAll(q, before), addrs[n]) == MarkAll(q, before + {addrs[n]});
    }
  }

  lemma {:induction false} AllFreedReclaims(q: seq<Packet>)
    requires forall i :: 0 <= i < |q| ==> q[i].freed
    ensures Reclaim(q) == []
  {
    if q != [] { AllFreedReclaims(q[1..]); }
  }

  lemma {:induction false} StillLive(q: seq<Packet>, a: int, b: int)
    requires IsLive(q, b) && a != b
    ensures IsLive(Reclaim(Mark(q, a)), b)
  {
    var i := LiveIndex(q, b);
    var m := Mark(q, a);
    assert m[i].addr == b && !m[i].freed;
    LiveReclaimed(m, i);
  }

  lemma {:induction false} LiveReclaimed(q: seq<Packet>, i: nat)
    requires i < |q| && !q[i].freed
    ensures IsLive(Reclaim(q), q[i].addr)
  {
    if q[0].freed { LiveReclaimed(q[1..], i - 1); }
  }

  lemma {:induction false} FreeAllOfAll(q: seq<Packet>, addrs: seq<int>)
    requires Settled(q)
    requires forall i :: 0 <= i < |q| ==> q[i].freed || q[i].addr in addrs
    ensures FreeAll(q, addrs) == []
  {
    FreeAllIsMarkAll(q, addrs);
    AllFreedReclaims(MarkAll(q, set a | a in addrs));
  }

  /** From position n on, the addresses are those of live records, all different. */
  ghost predicate LiveFrom(q: seq<Packet>, addrs: seq<int>, n: nat) {
    && (forall k :: n <= k < |addrs| ==> IsLive(q, addrs[k]))
    && (forall k, l :: 0 <= k < l < |addrs| ==> addrs[k] != addrs[l])
  }

  lemma FreeAllStep(q: seq<Packet>, addrs: seq<int>, n: nat)
    requires n < |addrs| && LiveFrom(FreeAll(q, addrs[..n]), addrs, n)
    ensures FreeAll(q, addrs[..n + 1]) == Reclaim(Mark(FreeAll(q, addrs[..n]), addrs[n]))
    ensures LiveFrom(FreeAll(q, addrs[..n + 1]), addrs, n + 1)
  {
    assert addrs[..n + 1][..n] == addrs[..n];
    hide IsLive, Reclaim, Mark;
    forall k | n < k < |addrs|
      ensures IsLive(FreeAll(q, addrs[..n + 1]), addrs[k])
    {
      StillLive(FreeAll(q, addrs[..n]), addrs[n], addrs[k]);
    }
  }

  /** Freeing the buffers of all live records, in any order, empties the pool: rdptr meets
      wrptr. */
  method FreeingAllEmpties(pool: MemPool, addrs: seq<int>)
    requires pool.Valid() && LiveFrom(pool.fifo, addrs, 0)
    requires forall i :: 0 <= i < |pool.fifo| ==> pool.fifo[i].freed || pool.fifo[i].addr in addrs
    modifies pool`rdptr, pool`atStart, pool`fifo, pool.mem
    ensures pool.Valid() && pool.fifo == [] && pool.rdptr == pool.wrptr
  {
    EmptyPool(pool);
    ghost var q := pool.fifo;
    FreeAllOfAll(q, addrs);
    hide MemPool.Valid, IsLive, FreeAll, Reclaim, Mark, Fits, LiveFrom;
    assert FreeAll(q, addrs[..0]) == q by { NoneFreed(q, addrs); }
    var n := 0;
    while n < |addrs|
      invariant 0 <= n <= |addrs| && pool.Valid()
      invariant pool.fifo == FreeAll(q, addrs[..n]) && LiveFrom(pool.fifo, addrs, n)
    {
      FirstLive(pool.fifo, addrs, n);
      FreeAllStep(q, addrs, n);
      pool.Free(addrs[n] + HEADER);
      n := n + 1;
    }
    assert addrs[..n] == addrs;
    EmptyPool(pool);
  }

  lemma NoneFreed(q: seq<Packet>, addrs: seq<int>)
    ensures FreeAll(q, addrs[..0]) == q
  {}

  lemma FirstLive(q: seq<Packet>, addrs: seq<int>, n: nat)
    requires n < |addrs| && LiveFrom(q, addrs, n)
    ensures IsLive(q, addrs[n])
  {}

  lemma EmptyPool(pool: MemPool)
    requires pool.Valid()
    ensures pool.fifo == [] <==> pool.rdptr == pool.wrptr
    ensures Settled(pool.fifo)
  {
    EmptyIffPointersMeet(pool.View(), pool.fifo);
  }
}
