/** The transmit server's use of mii_reserve_at_least: the size it asks for is two bytes short of
    the largest record it writes, and the allocator accepts an exact fit. */
module ExactFit {
  import opened RingPool
  import opened PoolSteps
  import opened MemPool

  const TX_SIZE := 1518                                   // ETHERNET_MAX_TX_LP_PACKET_SIZE
  const FULL_SIZE := 4 * (DATA - HEADER) + 8 + TX_SIZE    // MII_MALLOC_FULL_PACKET_SIZE_LP

  /** A record of len words, put into the queue q at the wrptr of r, which becomes wrptr. */
  ghost predicate Appended(r: Pool, q: seq<Packet>, len: int, wrptr: int, q': seq<Packet>) {
    var end := r.Word(r.wrptr, len);
    && |q'| == |q| + 1 && q'[..|q|] == q && q'[|q|].addr == r.wrptr && !q'[|q|].freed
    && wrptr == if NearEnd(r, end) then START else end
  }

  /** The words left in place at wrptr, as the data of a record of n data words. */
  ghost function Leftover(r: Pool, n: nat): (data: seq<int>)
    ensures |data| == n
  {
    seq(n, k requires 0 <= k < n => Load(r, r.Word(r.wrptr, DATA + k)))
  }

  lemma LengthStored(r: Pool, q: seq<Packet>, length: nat, n: nat)
    requires Chain(r, q) && r.mem[r.wrptr + INFO] == DESCRIPTOR && DATA + n <= SpaceLeft(r)
    ensures var r' := Store(r, r.wrptr + LENGTH, length);
            && Chain(r', q) && r.Usable(r.wrptr) && r'.mem[r.wrptr + INFO] == DESCRIPTOR
            && r'.mem[r.wrptr + LENGTH] == length
            && Holds(r', r.wrptr, Leftover(r', n))
  {
    assert r.Usable(r.wrptr) && r.Off(r.wrptr + LENGTH) == r.Off(r.wrptr) + LENGTH;
    StoreFree(r, q, r.wrptr + LENGTH, length);
    var r' := Store(r, r.wrptr + LENGTH, length);
    forall k | 0 <= k < n
      ensures r'.mem[r'.Word(r.wrptr, DATA + k)] == Leftover(r', n)[k]
    {
      OffOfWord(r', r.wrptr, DATA + k);
      assert Leftover(r', n)[k] == Load(r', r'.Word(r'.wrptr, DATA + k));
    }
  }

  method StoreLength(pool: MemPool, length: nat)
    requires pool.Valid() && pool.mem[pool.wrptr + INFO] == DESCRIPTOR && DATA + (length + 3) / 4 <= SpaceLeft(pool.View())
    modifies pool.mem
    ensures pool.Valid() && pool.View() == Store(old(pool.View()), pool.wrptr + LENGTH, length)
    ensures pool.mem[pool.wrptr + INFO] == DESCRIPTOR && pool.mem[pool.wrptr + LENGTH] == length
    ensures pool.View().Off(pool.wrptr) + DATA + (length + 3) / 4 <= pool.View().Size()
    ensures Holds(pool.View(), pool.wrptr, Leftover(pool.View(), (length + 3) / 4))
  {
    ghost var r, n := pool.View(), (length + 3) / 4;
    LengthStored(r, pool.fifo, length, n);
    SameSpace(r, Store(r, r.wrptr + LENGTH, length), DATA + n);
    hide Chain, Holds, Leftover, SpaceLeft;
    pool.mem[pool.wrptr + LENGTH] := length;
    assert pool.View() == Store(r, r.wrptr + LENGTH, length);
  }

  /** The length word is stored and the record committed. */
  method FinishRecord(pool: MemPool, length: nat) returns (ok: bool)
    requires pool.Valid() && pool.mem[pool.wrptr + INFO] == DESCRIPTOR
    requires DATA + (length + 3) / 4 <= SpaceLeft(pool.View())
    requires !(NearEnd(pool.View(), pool.View().Word(pool.wrptr, DATA + (length + 3) / 4)) && pool.rdptr == START)
    modifies pool`wrptr, pool`fifo, pool.mem
    ensures ok && Appended(old(pool.View()), old(pool.fifo), DATA + (length + 3) / 4, pool.wrptr, pool.fifo)
    ensures pool.Valid() <==> DATA + (length + 3) / 4 != SpaceLeft(old(pool.View()))
    ensures pool.rdptr == pool.wrptr <==> DATA + (length + 3) / 4 == SpaceLeft(old(pool.View()))
  {
    hide Chain, Holds, NearEnd, Appended, SpaceLeft, Leftover, Settled, Pool.Off, Pool.Size;
    ghost var r, n := pool.View(), (length + 3) / 4;
    StoreLength(pool, length);
    SameSpace(r, pool.View(), DATA + n);
    var end := pool.wrptr + DATA + (length + 3) / 4;
    if end >= pool.mem.Length - 1 {
      end := end - (pool.mem.Length - 1 - START);
    }
    WordIs(pool.View(), DATA + n);
    ok := pool.Commit(pool.wrptr + HEADER, end, Leftover(pool.View(), n), length);
    AppendedOne(r, old(pool.fifo), DATA + n, pool.wrptr, pool.fifo);
  }

  lemma WordIs(r: Pool, len: int)
    ensures r.Word(r.wrptr, len) == if r.wrptr + len >= |r.mem| - 1 then r.wrptr + len - (|r.mem| - 1 - START) else r.wrptr + len
  {}

  lemma SameSpace(r: Pool, r': Pool, len: int)
    requires |r.mem| == |r'.mem| && r.rdptr == r'.rdptr && r.wrptr == r'.wrptr && len <= SpaceLeft(r)
    ensures SpaceLeft(r') == SpaceLeft(r) && r'.Off(r.wrptr) + len <= r'.Size()
    ensures NearEnd(r', r'.Word(r.wrptr, len)) == NearEnd(r, r.Word(r.wrptr, len))
    ensures r'.Word(r.wrptr, len) == r.Word(r.wrptr, len)
  {}

  lemma AppendedOne(r: Pool, q: seq<Packet>, len: int, wrptr: int, q': seq<Packet>)
    requires |q'| == |q| + 1 && q' == q + [q'[|q|]] && q'[|q|].addr == r.wrptr && !q'[|q|].freed
    requires wrptr == if NearEnd(r, r.Word(r.wrptr, len)) then START else r.Word(r.wrptr, len)
    ensures Appended(r, q, len, wrptr, q')
  {
    assert q'[..|q|] == q;
  }

  /** A producer that reserves the full size, stores the length, and commits a record of that
      length, as the transmit server does. */
  method PutRecord(pool: MemPool, length: nat) returns (ok: bool)
    requires pool.Valid() && DATA + (length + 3) / 4 <= SpaceLeft(pool.View())
    requires 4 * SpaceLeft(pool.View()) >= FULL_SIZE + (if pool.rdptr == START then 4 * MIN_USAGE else 0)
    requires !(NearEnd(pool.View(), pool.View().Word(pool.wrptr, DATA + (length + 3) / 4)) && pool.rdptr == START)
    modifies pool`wrptr, pool`fifo, pool.mem
    ensures ok && Appended(old(pool.View()), old(pool.fifo), DATA + (length + 3) / 4, pool.wrptr, pool.fifo)
    ensures pool.Valid() <==> DATA + (length + 3) / 4 != SpaceLeft(old(pool.View()))
    ensures pool.rdptr == pool.wrptr <==> DATA + (length + 3) / 4 == SpaceLeft(old(pool.View()))
  {
    assert pool.View().Usable(pool.wrptr);
    hide Fits, Chain;
    ghost var r := pool.View();
    var buf := pool.ReserveAtLeast(FULL_SIZE);
    SameSpace(r, pool.View(), DATA + (length + 3) / 4);
    ok := FinishRecord(pool, length);
  }

  lemma OldestOfTwo(q: seq<Packet>)
    requires |q| == 2 && !q[1].freed && q[0].addr != q[1].addr
    ensures Reclaim(Mark(q, q[0].addr)) == [q[1]]
  {
    var m := Mark(q, q[0].addr);
    assert m[1..] == [q[1]] && Reclaim(m[1..]) == m[1..];
  }

  /** Free the older of two records. */
  method FreeOldest(pool: MemPool)
    requires pool.Valid() && |pool.fifo| == 2 && !pool.fifo[0].freed && !pool.fifo[1].freed
    modifies pool`rdptr, pool`atStart, pool`fifo, pool.mem
    ensures pool.Valid() && pool.fifo == [old(pool.fifo)[1]] && pool.rdptr == pool.fifo[0].addr
  {
    ghost var q := pool.fifo;
    assert q[0].addr != q[1].addr;
    OldestOfTwo(q);
    assert IsLive(q, q[0].addr) && q[0].addr == pool.rdptr;
    hide Fits, Chain;
    pool.Free(pool.rdptr + HEADER);
    FirstAddress(pool);
  }

  lemma FirstAddress(pool: MemPool)
    requires pool.Valid() && pool.fifo != []
    ensures pool.rdptr == pool.fifo[0].addr
  {}

  /** The size the transmit server asks for is two bytes short of the record its largest frame
      makes.  In this run of its 4096-byte pool the exact fit is granted and committed: three
      records are live, and the pool looks empty. */
  method ExactFitRun(words: array<int>) returns (pool: MemPool)
    requires words.Length == 1025
    modifies words
    ensures 4 * (DATA + (TX_SIZE + 3) / 4) == FULL_SIZE + 2
    ensures pool.rdptr == pool.wrptr && !pool.Valid()
    ensures |pool.fifo| == 3 && forall i :: 0 <= i < 3 ==> !pool.fifo[i].freed
  {
    hide MemPool.Valid;
    pool := new MemPool(words);
    var ok := PutRecord(pool, TX_SIZE);
    ok := PutRecord(pool, TX_SIZE);
    FreeOldest(pool);
    ok := PutRecord(pool, 4 * 201);
    ok := PutRecord(pool, TX_SIZE);
  }
}
