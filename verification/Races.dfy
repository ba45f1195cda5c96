/** The order of the two tests with which mii_free ends. */
module Races {
  import opened RingPool
  import opened PoolSteps

  /** Why line 179 tests wrptr before next: had next been read first, from the unpublished
      link of an emptied pool, a commit landing between the two tests would make the live
      record it publishes look freed.  In the source's order the same commit is harmless. */
  lemma ReversedTestsLoseLiveRecord(s: State)
    requires Inv(s) && s.freer == AtWrptr(s.pool.wrptr) && s.prod.Linking?
    requires Load(s.pool, s.pool.wrptr) <= 0                     // the early read of hdr->next
    ensures Enabled(s, StoreNext) && Enabled(Step(s, StoreNext), StoreWrptr)
    ensures var t := Step(Step(s, StoreNext), StoreWrptr);
            && t.freer.h != t.pool.wrptr                          // the late test of hdr != wrptr
            && |t.fifo| > 0 && t.fifo[0].addr == t.freer.h && !t.fifo[0].freed
            && Enabled(t, FreeWrptr) && Enabled(Step(t, FreeWrptr), FreeNext)
            && Step(Step(t, FreeWrptr), FreeNext).freer == NotFreeing
  {
    EmptyIffPointersMeet(s.pool, s.fifo);
    CommitStep(s, StoreNext);
    CommitStep(Step(s, StoreNext), StoreWrptr);
    var t := Step(Step(s, StoreNext), StoreWrptr);
    assert RecordAt(t.pool, t.fifo, 0);
  }
}
