/** The byte ring of mii_malloc.c as a value.

    Addresses are word indices (the pool array is word aligned and every access in the
    source is a word access).  Word 0 is not part of the pool, its descriptor fills words
    DESCRIPTOR .. START-1, the ring is START .. End()-1 and the word at End() is the sentinel
    that holds the wrap address.  Every address, the descriptor's included, is positive,
    which the sign-tagging of the link word needs. */
module RingPool {

  const DESCRIPTOR := 1                // the pool's mempool_info_t
  const START := DESCRIPTOR + 5        // sizeof(mempool_info_t) / 4, hardware lock
  const HEADER := 2                    // sizeof(malloc_hdr_t) / 4
  const INFO := 1                      // malloc_hdr_t.info
  const DATA := HEADER + 10            // first data word of a record, from its header
  const LENGTH := HEADER + 0           // mii_packet_t.length
  const FILTER := HEADER + 2           // mii_packet_t.filter_result
  const STAGE := HEADER + 5            // mii_packet_t.stage
  const TCOUNT := HEADER + 6           // mii_packet_t.tcount
  const MIN_USAGE := DATA + 10         // packet header + malloc header + 4*10 bytes

  datatype Pool = Pool(rdptr: int, wrptr: int, atStart: bool, mem: seq<int>) {
    function End(): int { |mem| - 1 }

    function Size(): int { |mem| - 1 - START }

    /** How far x lies after rdptr, going round the ring. */
    function Off(x: int): int { if x >= rdptr then x - rdptr else x - rdptr + Size() }

    /** The k-th word of a record that starts at a. */
    function Word(a: int, k: int): int { if a + k >= End() then a + k - Size() else a + k }

    predicate InRing(x: int) { START <= x < End() }

    /** Positions at which a record may start. */
    predicate Usable(x: int) { START <= x <= End() - MIN_USAGE }

    predicate WellFormed() {
      && START + MIN_USAGE <= End()
      && mem[End()] == START
      && Usable(rdptr) && Usable(wrptr)
      && (atStart <==> rdptr == START)
    }
  }

  /** A committed record: what the ring is meant to remember about it. */
  datatype Packet = Packet(addr: int, data: seq<int>, length: int, staged: bool, freed: bool) {
    function Extent(): int { DATA + |data| }
  }

  function Node(r: Pool, q: seq<Packet>, i: nat): int
    requires i <= |q|
  {
    if i < |q| then q[i].addr else r.wrptr
  }

  function Abs(x: int): int { if x < 0 then -x else x }

  /** The words of record p, with `next` as the address its link word leads to. */
  predicate Stored(r: Pool, p: Packet, next: int) {
    && r.WellFormed() && r.Usable(p.addr) && r.Off(p.addr) + p.Extent() <= r.Size()
    && r.mem[p.addr] == (if p.freed then -next else next)
    && r.mem[p.addr + INFO] == DESCRIPTOR
    && r.mem[p.addr + LENGTH] == p.length
    && 0 <= p.length && (p.length + 3) / 4 <= |p.data|
    && (r.mem[p.addr + STAGE] == 1 <==> p.staged)
    && Holds(r, p.addr, p.data)
  }

  /** The data words of the record at a are `data`. */
  predicate Holds(r: Pool, a: int, data: seq<int>)
    requires r.WellFormed() && r.Usable(a) && r.Off(a) + DATA + |data| <= r.Size()
  {
    forall k :: 0 <= k < |data| ==> r.mem[r.Word(a, DATA + k)] == data[k]
  }

  /** Record i of the queue is in memory, linked to its successor. */
  predicate RecordAt(r: Pool, q: seq<Packet>, i: nat)
    requires i < |q|
  {
    Stored(r, q[i], Node(r, q, i + 1))
  }

  /** Records start at usable places and follow one another without overlap, from rdptr
      to wrptr in ring order. */
  predicate Ordered(r: Pool, q: seq<Packet>) {
    && r.WellFormed()
    && Node(r, q, 0) == r.rdptr
    && (forall i :: 0 <= i < |q| ==> r.Usable(q[i].addr))
    && (forall i :: 0 <= i < |q| ==> r.Off(q[i].addr) + q[i].Extent() <= r.Off(r.wrptr))
    && (forall i, j :: 0 <= i < j < |q| ==> r.Off(q[i].addr) + q[i].Extent() <= r.Off(q[j].addr))
  }

  /** The pool's memory represents the queue q of committed, unreclaimed records. */
  predicate Chain(r: Pool, q: seq<Packet>) {
    && Ordered(r, q)
    && forall i :: 0 <= i < |q| ==> RecordAt(r, q, i)
  }

  // ---------- ring arithmetic ----------

  lemma OffOfWord(r: Pool, a: int, k: int)
    requires r.WellFormed() && r.InRing(a) && 0 <= k && r.Off(a) + k < r.Size()
    ensures r.InRing(r.Word(a, k)) && r.Off(r.Word(a, k)) == r.Off(a) + k
  {}

  /** x is not a word of record p. */
  predicate Outside(r: Pool, p: Packet, x: int) {
    r.InRing(x) && (r.Off(x) < r.Off(p.addr) || r.Off(p.addr) + p.Extent() <= r.Off(x))
  }

  // ---------- what each kind of store does to the chain ----------

  lemma StoredFrame(r: Pool, r': Pool, p: Packet, next: int)
    requires r.WellFormed() && r'.WellFormed() && |r.mem| == |r'.mem|
    requires Stored(r, p, next) && r'.Off(p.addr) + p.Extent() <= r'.Size()
    requires forall x :: r.InRing(x) && r.mem[x] != r'.mem[x] ==> Outside(r, p, x)
    ensures Stored(r', p, next)
  {
    forall k | 0 <= k < p.Extent()
      ensures r'.mem[r.Word(p.addr, k)] == r.mem[r.Word(p.addr, k)]
    {
      OffOfWord(r, p.addr, k);
    }
    assert r.Word(p.addr, 0) == p.addr && r.Word(p.addr, INFO) == p.addr + INFO
           && r.Word(p.addr, LENGTH) == p.addr + LENGTH && r.Word(p.addr, STAGE) == p.addr + STAGE;
    forall k | 0 <= k < |p.data|
      ensures r'.mem[r'.Word(p.addr, DATA + k)] == p.data[k]
    {
      assert r.Word(p.addr, DATA + k) == r'.Word(p.addr, DATA + k);
    }
  }

  lemma WriteOutside(r: Pool, q: seq<Packet>, x: int, v: int)
    requires Chain(r, q) && r.InRing(x)
    requires forall i :: 0 <= i < |q| ==> Outside(r, q[i], x)
    ensures Chain(r.(mem := r.mem[x := v]), q)
  {
    var r' := r.(mem := r.mem[x := v]);
    assert r'.WellFormed();
    assert Ordered(r', q) by {
      assert forall y :: r'.Off(y) == r.Off(y);
    }
    forall i | 0 <= i < |q|
      ensures RecordAt(r', q, i)
    {
      assert RecordAt(r, q, i);
      StoredFrame(r, r', q[i], Node(r, q, i + 1));
    }
  }

  /** Replacing record i by p while its words change: the other records are untouched. */
  lemma Rewrite(r: Pool, r': Pool, q: seq<Packet>, i: nat, p: Packet)
    requires Chain(r, q) && i < |q| && p.addr == q[i].addr && p.Extent() == q[i].Extent()
    requires r'.WellFormed() && |r'.mem| == |r.mem|
    requires r'.rdptr == r.rdptr && r'.wrptr == r.wrptr && r'.atStart == r.atStart
    requires forall x :: r.InRing(x) && r.mem[x] != r'.mem[x] ==> !Outside(r, q[i], x)
    requires Stored(r', p, Node(r, q, i + 1))
    ensures Chain(r', q[i := p])
  {
    var q' := q[i := p];
    assert forall y :: r'.Off(y) == r.Off(y);
    assert forall j :: 0 <= j <= |q| ==> Node(r', q', j) == Node(r, q, j);
    assert Ordered(r', q') by {
      assert forall j :: 0 <= j < |q| ==> q'[j].addr == q[j].addr && q'[j].Extent() == q[j].Extent();
    }
    forall j | 0 <= j < |q'|
      ensures RecordAt(r', q', j)
    {
      assert Node(r', q', j + 1) == Node(r, q, j + 1);
      if j != i {
        assert RecordAt(r, q, j);
        StoredFrame(r, r', q[j], Node(r, q, j + 1));
      }
    }
  }

  /** A change confined to the first DATA words of a record leaves its data words alone. */
  lemma KeepsData(r: Pool, r': Pool, p: Packet)
    requires r.WellFormed() && r'.WellFormed() && |r.mem| == |r'.mem| && r.Usable(p.addr)
    requires r.Off(p.addr) + p.Extent() <= r.Size() && Holds(r, p.addr, p.data)
    requires r'.Off(p.addr) + p.Extent() <= r'.Size()
    requires forall x :: r.InRing(x) && !(p.addr <= x < p.addr + DATA) ==> r'.mem[x] == r.mem[x]
    ensures Holds(r', p.addr, p.data)
  {
    forall k | 0 <= k < |p.data|
      ensures r'.mem[r'.Word(p.addr, DATA + k)] == p.data[k]
    {
      OffOfWord(r, p.addr, DATA + k);
      assert r'.Word(p.addr, DATA + k) == r.Word(p.addr, DATA + k);
    }
  }

  /** p describes what p0 describes after the store of v in header word k. */
  predicate Rewords(p0: Packet, p: Packet, next: int, k: int, v: int) {
    && 0 <= k < DATA && k != INFO && k != LENGTH
    && p.addr == p0.addr && p.data == p0.data && p.length == p0.length
    && (if k == 0 then v == (if p.freed then -next else next) else p.freed == p0.freed)
    && (if k == STAGE then v == 1 <==> p.staged else p.staged == p0.staged)
  }

  lemma StoredAfterRewrite(r: Pool, p0: Packet, p: Packet, next: int, k: int, v: int)
    requires Stored(r, p0, next) && Rewords(p0, p, next, k, v)
    ensures r.(mem := r.mem[p.addr + k := v]).WellFormed()
    ensures Stored(r.(mem := r.mem[p.addr + k := v]), p, next)
  {
    KeepsData(r, r.(mem := r.mem[p.addr + k := v]), p);
  }

  /** One header word of record i changes, so that the record is now described by p. */
  lemma RewriteWord(r: Pool, q: seq<Packet>, i: nat, k: int, v: int, p: Packet)
    requires Chain(r, q) && i < |q| && Rewords(q[i], p, Node(r, q, i + 1), k, v)
    ensures Chain(r.(mem := r.mem[p.addr + k := v]), q[i := p])
  {
    var next := Node(r, q, i + 1);
    assert RecordAt(r, q, i);
    StoredAfterRewrite(r, q[i], p, next, k, v);
    Rewrite(r, r.(mem := r.mem[p.addr + k := v]), q, i, p);
  }

  /** Consumers write the packet header words of a committed record (filter result, source
      port, reference count, user data). */
  lemma HeaderWrite(r: Pool, q: seq<Packet>, i: nat, k: int, v: int)
    requires Chain(r, q) && i < |q| && INFO < k < DATA && k != LENGTH && k != STAGE
    ensures Chain(r.(mem := r.mem[q[i].addr + k := v]), q)
  {
    RewriteWord(r, q, i, k, v, q[i]);
    assert q[i := q[i]] == q;
  }

  /** The filter finishes with a record. */
  lemma StageWrite(r: Pool, q: seq<Packet>, i: nat)
    requires Chain(r, q) && i < |q|
    ensures Chain(r.(mem := r.mem[q[i].addr + STAGE := 1]), q[i := q[i].(staged := true)])
  {
    hide Chain;
    RewriteWord(r, q, i, STAGE, 1, q[i].(staged := true));
  }

  /** The else branch of mii_free: negate the link word. */
  function Negated(r: Pool, a: int): Pool
    requires 0 <= a < |r.mem|
  {
    r.(mem := r.mem[a := -r.mem[a]])
  }

  lemma LinkOf(r: Pool, q: seq<Packet>, i: nat)
    requires Chain(r, q) && i < |q|
    ensures 0 <= q[i].addr < |r.mem|
    ensures r.mem[q[i].addr] == if q[i].freed then -Node(r, q, i + 1) else Node(r, q, i + 1)
  {
    assert RecordAt(r, q, i);
  }

  lemma MarkFreed(r: Pool, q: seq<Packet>, i: nat)
    requires Chain(r, q) && i < |q| && !q[i].freed
    ensures 0 <= q[i].addr < |r.mem|
    ensures Chain(Negated(r, q[i].addr), q[i := q[i].(freed := true)])
  {
    var p, next := q[i].(freed := true), Node(r, q, i + 1);
    LinkOf(r, q, i);
    hide Chain;
    RewriteWord(r, q, i, 0, -next, p);
    assert Negated(r, q[i].addr) == r.(mem := r.mem[p.addr + 0 := -next]);
  }

  /** Lines 162-174: drop the oldest record. */
  function Advanced(r: Pool): Pool
    requires r.WellFormed()
  {
    var next := Abs(r.mem[r.rdptr]);
    r.(rdptr := next, atStart := next == START, mem := r.mem[r.rdptr := 0])
  }

  lemma OffAfterAdvance(r: Pool, q: seq<Packet>, x: int)
    requires Chain(r, q) && |q| > 0 && r.InRing(x)
    requires r.Off(Node(r, q, 1)) <= r.Off(x)
    ensures Advanced(r).Off(x) == r.Off(x) - r.Off(Node(r, q, 1))
    ensures Abs(r.mem[r.rdptr]) == Node(r, q, 1)
  {
    assert RecordAt(r, q, 0);
  }

  lemma AdvanceOrder(r: Pool, q: seq<Packet>)
    requires Chain(r, q) && |q| > 0
    ensures Ordered(Advanced(r), q[1..])
    ensures Advanced(r).Off(r.wrptr) == r.Off(r.wrptr) - r.Off(Node(r, q, 1))
    ensures forall i :: 0 < i < |q| ==> Advanced(r).Off(q[i].addr) == r.Off(q[i].addr) - r.Off(Node(r, q, 1))
  {
    OffAfterAdvance(r, q, r.wrptr);
    forall i | 0 < i < |q|
      ensures Advanced(r).Off(q[i].addr) == r.Off(q[i].addr) - r.Off(Node(r, q, 1))
    {
      OffAfterAdvance(r, q, q[i].addr);
    }
    assert forall i :: 0 <= i < |q[1..]| ==> q[1..][i] == q[i + 1];
  }

  lemma Advance(r: Pool, q: seq<Packet>)
    requires Chain(r, q) && |q| > 0
    ensures Chain(Advanced(r), q[1..])
  {
    var r', q' := Advanced(r), q[1..];
    AdvanceOrder(r, q);
    forall i | 0 <= i < |q'|
      ensures RecordAt(r', q', i)
    {
      assert RecordAt(r, q, i + 1);
      StoredFrame(r, r', q'[i], Node(r, q, i + 2));
    }
  }

  /** Line 141: wrptr moves past a record whose words are all in place. */
  lemma Publish(r: Pool, q: seq<Packet>, p: Packet, endp: int)
    requires Chain(r, q) && p.addr == r.wrptr
    requires r.Usable(endp) && r.Off(r.wrptr) + p.Extent() <= r.Off(endp)
    requires Stored(r, p, endp)
    ensures Chain(r.(wrptr := endp), q + [p])
  {
    var r', q' := r.(wrptr := endp), q + [p];
    assert forall y :: r'.Off(y) == r.Off(y);
    assert forall i :: 0 <= i <= |q| ==> Node(r', q', i) == Node(r, q, i);
    assert Ordered(r', q');
    forall i | 0 <= i < |q'|
      ensures RecordAt(r', q', i)
    {
      var next := if i < |q| then Node(r, q, i + 1) else endp;
      assert Node(r', q', i + 1) == next;
      if i < |q| { assert RecordAt(r, q, i); }
      StoredFrame(r, r', q'[i], next);
    }
  }

  // ---------- what the chain means ----------

  /** The address reached from rdptr after i links, reading only memory. */
  function Follow(r: Pool, i: nat): int {
    if i == 0 then r.rdptr
    else
      var a := Follow(r, i - 1);
      if 0 <= a < |r.mem| then Abs(r.mem[a]) else a
  }

  /** Following |next| from rdptr meets exactly the queued records, in commit order, and
      then reaches wrptr, not before. */
  lemma {:induction false} ChainReachesWrptr(r: Pool, q: seq<Packet>, i: nat)
    requires Chain(r, q) && i <= |q|
    ensures Follow(r, i) == Node(r, q, i)
    ensures Follow(r, i) == r.wrptr <==> i == |q|
  {
    if i > 0 {
      ChainReachesWrptr(r, q, i - 1);
      assert RecordAt(r, q, i - 1);
    }
  }

  /** The words of record p, sentinel excluded. */
  predicate IsWordOf(r: Pool, p: Packet, x: int) {
    exists k :: 0 <= k < p.Extent() && x == r.Word(p.addr, k)
  }

  /** Records are pairwise disjoint modulo wrap, and stay inside the ring. */
  lemma RecordsDisjoint(r: Pool, q: seq<Packet>, i: nat, x: int)
    requires Chain(r, q) && i < |q| && IsWordOf(r, q[i], x)
    ensures r.InRing(x) && x != r.End()
    ensures forall j :: 0 <= j < |q| && j != i ==> !IsWordOf(r, q[j], x)
  {
    var k :| 0 <= k < q[i].Extent() && x == r.Word(q[i].addr, k);
    OffOfWord(r, q[i].addr, k);
    forall j | 0 <= j < |q| && j != i
      ensures !IsWordOf(r, q[j], x)
    {
      if IsWordOf(r, q[j], x) {
        var l :| 0 <= l < q[j].Extent() && x == r.Word(q[j].addr, l);
        OffOfWord(r, q[j].addr, l);
      }
    }
  }

  /** The two pointers meet only when the queue is empty, never when the ring is full; and the
      slack before the end is kept. */
  lemma EmptyIffPointersMeet(r: Pool, q: seq<Packet>)
    requires Chain(r, q)
    ensures r.rdptr == r.wrptr <==> q == []
    ensures r.End() - r.wrptr >= MIN_USAGE && r.mem[r.End()] == START
  {
    if q != [] { assert RecordAt(r, q, 0); }
  }

  /** The memory determines the queue of record positions and freed marks. */
  lemma {:induction false} ChainUnique(r: Pool, q1: seq<Packet>, q2: seq<Packet>)
    requires Chain(r, q1) && Chain(r, q2)
    ensures |q1| == |q2|
    ensures forall i :: 0 <= i < |q1| ==> q1[i].addr == q2[i].addr && q1[i].freed == q2[i].freed
                                          && q1[i].staged == q2[i].staged && q1[i].length == q2[i].length
  {
    var n := if |q1| < |q2| then |q1| else |q2|;
    ChainReachesWrptr(r, q1, n);
    ChainReachesWrptr(r, q2, n);
    forall i | 0 <= i < |q1|
      ensures q1[i].addr == q2[i].addr && q1[i].freed == q2[i].freed
              && q1[i].staged == q2[i].staged && q1[i].length == q2[i].length
    {
      SameRecord(r, q1, q2, i);
    }
  }

  lemma SameRecord(r: Pool, q1: seq<Packet>, q2: seq<Packet>, i: nat)
    requires Chain(r, q1) && Chain(r, q2) && i < |q1| == |q2|
    ensures q1[i].addr == q2[i].addr && q1[i].freed == q2[i].freed
            && q1[i].staged == q2[i].staged && q1[i].length == q2[i].length
  {
    ChainReachesWrptr(r, q1, i);
    ChainReachesWrptr(r, q2, i);
    assert RecordAt(r, q1, i) && RecordAt(r, q2, i);
  }
}
