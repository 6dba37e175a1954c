/**
  The counters kept per access stream (one block for instruction
  fetches, one for data loads and stores).
 */
module Statistics {

  datatype Stats = Stats(
    accesses: nat,
    misses: nat,
    replacements: nat,
    /** words fetched from memory on misses */
    demandFetches: nat,
    /** words written back to memory */
    copiesBack: nat)

  const Zero := Stats(0, 0, 0, 0, 0)

  /** Every counter of `a` is at most the same counter of `b`. */
  predicate Le(a: Stats, b: Stats)
  {
    && a.accesses <= b.accesses
    && a.misses <= b.misses
    && a.replacements <= b.replacements
    && a.demandFetches <= b.demandFetches
    && a.copiesBack <= b.copiesBack
  }

  /**
    What the counters of one stream always satisfy, for blocks of `wordsPerBlock`
    words: a miss is an access, a replacement is a miss, and a miss fetches at
    most one block.
   */
  predicate Consistent(s: Stats, wordsPerBlock: nat)
  {
    && s.replacements <= s.misses <= s.accesses
    && s.demandFetches <= wordsPerBlock * s.misses
  }

  /** The traffic totals of the final report: both streams together, in words. */
  datatype Traffic = Traffic(demandFetches: nat, copiesBack: nat)

  function TotalTraffic(inst: Stats, data: Stats): Traffic
  {
    Traffic(inst.demandFetches + data.demandFetches, inst.copiesBack + data.copiesBack)
  }
}
