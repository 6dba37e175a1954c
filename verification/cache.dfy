/**
  The caches of one simulation run: initialisation (`perform_init`,
  `init_cache`), the dispatcher (`perform_access`) and the final
  write-back pass (`perform_flush`, `flush`).

  The simulator keeps the caches and the two statistics blocks in
  file-level variables; here they are fields of one `Sim` record that
  every operation takes and returns.
 */
module CacheModel {
  import opened Wrappers
  import opened Address
  import opened LineStore
  import opened Statistics
  import opened AccessHandlers
  import opened Configuration

  /** One cache: its address layout, its associativity, and set i at index i. */
  datatype Cache = Cache(layout: Layout, assoc: nat, sets: seq<seq<Line>>)
  {
    /** The shape `perform_init` gives a cache: one set per index, room for a line in each. */
    predicate Shaped()
    {
      layout.Valid() && assoc >= 1 && |sets| == layout.NumSets()
    }

    /** Shaped, and every set within its associativity with distinct tags. */
    predicate Valid()
    {
      Shaped() && forall i :: 0 <= i < |sets| ==> LineStore.Valid(sets[i], assoc)
    }

    /** No dirty line anywhere in the cache. */
    predicate Clean()
    {
      forall i :: 0 <= i < |sets| ==> AllClean(sets[i])
    }
  }

  /** Either separate instruction and data caches, or one unified cache. */
  datatype Caches = Split(icache: Cache, dcache: Cache) | Unified(cache: Cache)
  {
    predicate Shaped()
    {
      match this
      case Split(i, d) => i.Shaped() && d.Shaped()
      case Unified(u) => u.Shaped()
    }

    predicate Valid()
    {
      match this
      case Split(i, d) => i.Valid() && d.Valid()
      case Unified(u) => u.Valid()
    }

    predicate Clean()
    {
      match this
      case Split(i, d) => i.Clean() && d.Clean()
      case Unified(u) => u.Clean()
    }
  }

  /** The state of a run: the policy the handlers read, the caches, and the two statistics blocks. */
  datatype Sim = Sim(policy: Policy, caches: Caches, inst: Stats, data: Stats)
  {
    predicate Shaped()
    {
      caches.Shaped()
    }

    /**
      What holds after initialisation and after every access: every set is
      valid; the counters are consistent, and instruction misses always
      fetch a block; the instruction cache of a split organisation never
      holds a dirty line; under write-through no line is ever dirty.
     */
    predicate Valid()
    {
      && caches.Valid()
      && Consistent(inst, policy.wordsPerBlock)
      && Consistent(data, policy.wordsPerBlock)
      && inst.demandFetches == policy.wordsPerBlock * inst.misses
      && (caches.Split? ==> caches.icache.Clean())
      && (!policy.writeBack ==> caches.Clean())
    }
  }

  // ---------------------------------------------------------------------
  // Initialisation

  /** `perform_init`'s set count: the size in words over the words of one set. */
  function NumSetsFor(cfg: Config, size: int): (n: int)
    requires cfg.assoc >= 1 && cfg.wordsPerBlock >= 1
    ensures var words := CDiv(size, cfg.wordSize);
            var perSet := cfg.assoc * cfg.wordsPerBlock;
            words >= 0 ==> 0 <= n * perSet <= words < n * perSet + perSet
  {
    CDiv(CDiv(size, cfg.wordSize), cfg.assoc * cfg.wordsPerBlock)
  }

  /**
    What `perform_init` needs of the configuration to build a sensible
    cache: a positive associativity and block, a set count and a byte
    block size that are powers of two, and an index and offset that fit
    in a 32-bit address.
   */
  predicate GeometryOk(cfg: Config, size: int)
  {
    && cfg.assoc >= 1
    && cfg.wordsPerBlock >= 1
    && cfg.blockSize >= 1
    && NumSetsFor(cfg, size) >= 1
    && IsPow2(NumSetsFor(cfg, size))
    && IsPow2(cfg.blockSize)
    && Log2(NumSetsFor(cfg, size)) + Log2(cfg.blockSize) < 32
  }

  /**
    `perform_init`: every set empty, the index as wide as log2 of the set
    count and the offset as wide as log2 of the block size in bytes.
   */
  function PerformInit(cfg: Config, size: int): (c: Cache)
    requires GeometryOk(cfg, size)
    ensures c.Valid() && c.Clean()
    ensures c.assoc == cfg.assoc
    ensures c.layout.NumSets() == NumSetsFor(cfg, size)
    ensures Pow2(c.layout.offsetBits) == cfg.blockSize
    ensures forall i :: 0 <= i < |c.sets| ==> c.sets[i] == []
    ensures c.layout.NumSets() * (c.assoc * cfg.wordsPerBlock) <= CDiv(size, cfg.wordSize)
  {
    var n := NumSetsFor(cfg, size);
    Log2OfPow2(n);
    Log2OfPow2(cfg.blockSize);
    Cache(Layout(Log2(n), Log2(cfg.blockSize)), cfg.assoc, seq(n, _ => []))
  }

  /** Sizes that `init_cache` can build caches from, for the configured organisation. */
  predicate ConfigOk(cfg: Config)
  {
    if cfg.split then GeometryOk(cfg, cfg.isize) && GeometryOk(cfg, cfg.dsize)
    else GeometryOk(cfg, cfg.usize)
  }

  function PolicyOf(cfg: Config): Policy
    requires cfg.wordsPerBlock >= 0
  {
    Policy(cfg.writeBack, cfg.writeAlloc, cfg.wordsPerBlock)
  }

  /** `init_cache`: the configured caches, empty, and both statistics blocks zero. */
  function InitCache(cfg: Config): (s: Sim)
    requires ConfigOk(cfg)
    ensures s.Valid()
    ensures s.inst == Zero && s.data == Zero
    ensures s.caches.Split? == cfg.split
    ensures s.caches.Clean()
    ensures s.policy == Policy(cfg.writeBack, cfg.writeAlloc, cfg.wordsPerBlock)
    ensures cfg.split ==> s.caches == Split(PerformInit(cfg, cfg.isize), PerformInit(cfg, cfg.dsize))
    ensures !cfg.split ==> s.caches == Unified(PerformInit(cfg, cfg.usize))
  {
    var caches :=
      if cfg.split then Split(PerformInit(cfg, cfg.isize), PerformInit(cfg, cfg.dsize))
      else Unified(PerformInit(cfg, cfg.usize));
    Sim(PolicyOf(cfg), caches, Zero, Zero)
  }

  // ---------------------------------------------------------------------
  // Dispatch

  /** The three handlers and their access-type codes. */
  datatype Handler = DataLoad | DataStore | InstructionLoad

  function HandlerFor(kind: nat): (h: Option<Handler>)
    ensures h == None <==> kind > 2
    ensures h == Some(DataLoad) <==> kind == 0
    ensures h == Some(DataStore) <==> kind == 1
    ensures h == Some(InstructionLoad) <==> kind == 2
  {
    if kind == 0 then Some(DataLoad)
    else if kind == 1 then Some(DataStore)
    else if kind == 2 then Some(InstructionLoad)
    else None
  }

  /** Only set `index` of the cache may differ; layout and associativity stay. */
  predicate OnlySetChanged(c: Cache, c': Cache, index: nat)
  {
    && c'.layout == c.layout
    && c'.assoc == c.assoc
    && |c'.sets| == |c.sets|
    && forall j :: 0 <= j < |c.sets| && j != index ==> c'.sets[j] == c.sets[j]
  }

  /** One handler run on the set of `c` that `addr` selects, against the statistics block `st`. */
  function Handle(p: Policy, h: Handler, c: Cache, addr: Addr, st: Stats): (r: (Cache, Stats))
    requires c.Shaped()
    ensures OnlySetChanged(c, r.0, SetIndex(c.layout, addr))
    ensures r.1.accesses == st.accesses + 1
    ensures var index := SetIndex(c.layout, addr);
            var tag := Tag(c.layout, addr);
            var o := if h == DataStore then Store(p, c.assoc, c.sets[index], tag, st)
                     else Load(c.assoc, p.wordsPerBlock, c.sets[index], tag, st);
            r.0.sets[index] == o.lines && r.1 == o.stats
  {
    var index := SetIndex(c.layout, addr);
    var tag := Tag(c.layout, addr);
    var o := match h
      case DataStore => Store(p, c.assoc, c.sets[index], tag, st)
      case _ => Load(c.assoc, p.wordsPerBlock, c.sets[index], tag, st);
    (c.(sets := c.sets[index := o.lines]), o.stats)
  }

  /** The cache an access of this kind goes to: the instruction or data cache when split, else the one cache. */
  function Target(caches: Caches, kind: nat): Cache
  {
    match caches
    case Split(ic, dc) => if kind == 2 then ic else dc
    case Unified(uc) => uc
  }

  /** The statistics block an access of this kind is counted in. */
  function Counters(s: Sim, kind: nat): Stats
  {
    if kind == 2 then s.inst else s.data
  }

  /**
    `perform_access`: loads and stores go to the data cache and the data
    statistics, instruction fetches to the instruction cache and the
    instruction statistics; a unified organisation sends all three to its
    one cache but still counts them in separate blocks. Any other access
    type changes nothing.
   */
  function PerformAccess(s: Sim, addr: Addr, kind: nat): (r: Sim)
    requires s.Shaped()
    ensures r.Shaped()
    ensures r.policy == s.policy && r.caches.Split? == s.caches.Split?
    ensures kind > 2 ==> r == s
    ensures kind <= 1 ==> r.inst == s.inst && r.data.accesses == s.data.accesses + 1
    ensures kind == 2 ==> r.data == s.data && r.inst.accesses == s.inst.accesses + 1
    ensures kind <= 1 && s.caches.Split? ==>
              && r.caches.icache == s.caches.icache
              && OnlySetChanged(s.caches.dcache, r.caches.dcache, SetIndex(s.caches.dcache.layout, addr))
    ensures kind == 2 && s.caches.Split? ==>
              && r.caches.dcache == s.caches.dcache
              && OnlySetChanged(s.caches.icache, r.caches.icache, SetIndex(s.caches.icache.layout, addr))
    ensures kind <= 2 && s.caches.Unified? ==>
              OnlySetChanged(s.caches.cache, r.caches.cache, SetIndex(s.caches.cache.layout, addr))
    ensures kind <= 2 ==>
              var (c', st') := Handle(s.policy, HandlerFor(kind).value, Target(s.caches, kind), addr, Counters(s, kind));
              Target(r.caches, kind) == c' && Counters(r, kind) == st'
  {
    match HandlerFor(kind)
    case None => s
    case Some(h) =>
      match s.caches
      case Split(ic, dc) =>
        if h == InstructionLoad then
          var (ic', st) := Handle(s.policy, h, ic, addr, s.inst);
          s.(caches := Split(ic', dc), inst := st)
        else
          var (dc', st) := Handle(s.policy, h, dc, addr, s.data);
          s.(caches := Split(ic, dc'), data := st)
      case Unified(uc) =>
        if h == InstructionLoad then
          var (uc', st) := Handle(s.policy, h, uc, addr, s.inst);
          s.(caches := Unified(uc'), inst := st)
        else
          var (uc', st) := Handle(s.policy, h, uc, addr, s.data);
          s.(caches := Unified(uc'), data := st)
  }

  // ---------------------------------------------------------------------
  // The invariant under accesses

  /** A handler run keeps the cache valid; loads and fetches never make a line dirty, nor do write-through stores. */
  lemma HandleKeepsValid(p: Policy, h: Handler, c: Cache, addr: Addr, st: Stats)
    requires c.Valid()
    ensures var (c', _) := Handle(p, h, c, addr, st);
            && c'.Valid()
            && (c.Clean() && (h != DataStore || !p.writeBack) ==> c'.Clean())
  {
    var index := SetIndex(c.layout, addr);
    var tag := Tag(c.layout, addr);
    var (c', _) := Handle(p, h, c, addr, st);
    if h == DataStore {
      StoreKeepsValid(p, c.assoc, c.sets[index], tag, st);
    } else {
      LoadKeepsValid(c.assoc, p.wordsPerBlock, c.sets[index], tag, st);
    }
    assert c'.sets[index] == (if h == DataStore then Store(p, c.assoc, c.sets[index], tag, st)
                              else Load(c.assoc, p.wordsPerBlock, c.sets[index], tag, st)).lines;
  }

  /** The counters a handler run leaves: only raised, still consistent; loads and fetches fetch one block per miss. */
  lemma HandleStats(p: Policy, h: Handler, c: Cache, addr: Addr, st: Stats)
    requires c.Shaped() && Consistent(st, p.wordsPerBlock)
    ensures var (_, st') := Handle(p, h, c, addr, st);
            && Le(st, st')
            && Consistent(st', p.wordsPerBlock)
            && (h != DataStore && st.demandFetches == p.wordsPerBlock * st.misses ==>
                  st'.demandFetches == p.wordsPerBlock * st'.misses)
  {
    var index := SetIndex(c.layout, addr);
    var tag := Tag(c.layout, addr);
    if h == DataStore {
      StoreStats(p, c.assoc, c.sets[index], tag, st);
    } else {
      var st' := Load(c.assoc, p.wordsPerBlock, c.sets[index], tag, st).stats;
      LoadStats(c.assoc, p.wordsPerBlock, c.sets[index], tag, st);
      if st.demandFetches == p.wordsPerBlock * st.misses {
        MulDistributes(p.wordsPerBlock, st.misses, st'.misses - st.misses);
      }
    }
  }

  /** Every access keeps the run's invariant, and no counter ever goes down. */
  lemma PerformAccessKeepsValid(s: Sim, addr: Addr, kind: nat)
    requires s.Valid()
    ensures var r := PerformAccess(s, addr, kind);
            && r.Valid()
            && Le(s.inst, r.inst) && Le(s.data, r.data)
  {
    match HandlerFor(kind)
    case None =>
    case Some(h) =>
      var st := if h == InstructionLoad then s.inst else s.data;
      match s.caches
      case Split(ic, dc) =>
        if h == InstructionLoad {
          HandleKeepsValid(s.policy, h, ic, addr, st);
          HandleStats(s.policy, h, ic, addr, st);
        } else {
          HandleKeepsValid(s.policy, h, dc, addr, st);
          HandleStats(s.policy, h, dc, addr, st);
        }
      case Unified(uc) =>
        HandleKeepsValid(s.policy, h, uc, addr, st);
        HandleStats(s.policy, h, uc, addr, st);
  }

  // ---------------------------------------------------------------------
  // Runs

  datatype Access = Access(addr: Addr, kind: nat)

  /** The accesses of a trace, in order. */
  function Run(s: Sim, trace: seq<Access>): (r: Sim)
    requires s.Shaped()
    ensures r.Shaped() && r.policy == s.policy && r.caches.Split? == s.caches.Split?
    decreases |trace|
  {
    if |trace| == 0 then s
    else Run(PerformAccess(s, trace[0].addr, trace[0].kind), trace[1..])
  }

  lemma {:induction false} RunKeepsValid(s: Sim, trace: seq<Access>)
    requires s.Valid()
    ensures var r := Run(s, trace);
            && r.Valid()
            && Le(s.inst, r.inst) && Le(s.data, r.data)
    decreases |trace|
  {
    if |trace| > 0 {
      var s' := PerformAccess(s, trace[0].addr, trace[0].kind);
      PerformAccessKeepsValid(s, trace[0].addr, trace[0].kind);
      RunKeepsValid(s', trace[1..]);
    }
  }

  /** Every access of a trace is counted in exactly one statistics block. */
  function CountedKinds(trace: seq<Access>): (n: nat)
    ensures n <= |trace|
    decreases |trace|
  {
    if |trace| == 0 then 0
    else (if trace[0].kind <= 2 then 1 else 0) + CountedKinds(trace[1..])
  }

  lemma {:induction false} RunCountsAccesses(s: Sim, trace: seq<Access>)
    requires s.Shaped()
    ensures var r := Run(s, trace);
            r.inst.accesses + r.data.accesses == s.inst.accesses + s.data.accesses + CountedKinds(trace)
    decreases |trace|
  {
    if |trace| > 0 {
      RunCountsAccesses(PerformAccess(s, trace[0].addr, trace[0].kind), trace[1..]);
    }
  }

  // ---------------------------------------------------------------------
  // Flush

  /** The number of dirty lines in a set. */
  function DirtyIn(lines: seq<Line>): (n: nat)
    ensures n <= |lines|
    ensures n == 0 <==> AllClean(lines)
    decreases |lines|
  {
    if |lines| == 0 then 0
    else DirtyIn(lines[..|lines| - 1]) + (if lines[|lines| - 1].dirty then 1 else 0)
  }

  /** The number of dirty lines in a sequence of sets. */
  function DirtyInSets(sets: seq<seq<Line>>): (n: nat)
    ensures n == 0 <==> forall i :: 0 <= i < |sets| ==> AllClean(sets[i])
    decreases |sets|
  {
    if |sets| == 0 then 0
    else DirtyInSets(sets[..|sets| - 1]) + DirtyIn(sets[|sets| - 1])
  }

  function DirtyLines(caches: Caches): nat
  {
    match caches
    case Split(i, d) => DirtyInSets(i.sets) + DirtyInSets(d.sets)
    case Unified(u) => DirtyInSets(u.sets)
  }

  lemma MulDistributes(w: nat, a: nat, b: nat)
    ensures w * (a + b) == w * a + w * b
  {
  }

  /** The inner loop of `perform_flush`: one block added to `copies` for each dirty line of a set. */
  method FlushSet(lines: seq<Line>, wordsPerBlock: nat, copies: nat) returns (r: nat)
    ensures r == copies + wordsPerBlock * DirtyIn(lines)
  {
    r := copies;
    var j := 0;
    while j < |lines|
      invariant 0 <= j <= |lines|
      invariant r == copies + wordsPerBlock * DirtyIn(lines[..j])
    {
      assert lines[..j + 1][..j] == lines[..j];
      MulDistributes(wordsPerBlock, DirtyIn(lines[..j]), if lines[j].dirty then 1 else 0);
      if lines[j].dirty {
        r := r + wordsPerBlock;
      }
      j := j + 1;
    }
    assert lines[..|lines|] == lines;
  }

  /** `perform_flush`: one block written back, into `st`, for each dirty line of the cache. */
  method PerformFlush(c: Cache, wordsPerBlock: nat, st: Stats) returns (r: Stats)
    ensures r == st.(copiesBack := st.copiesBack + wordsPerBlock * DirtyInSets(c.sets))
  {
    var copies := st.copiesBack;
    var i := 0;
    while i < |c.sets|
      invariant 0 <= i <= |c.sets|
      invariant copies == st.copiesBack + wordsPerBlock * DirtyInSets(c.sets[..i])
    {
      assert c.sets[..i + 1][..i] == c.sets[..i];
      MulDistributes(wordsPerBlock, DirtyInSets(c.sets[..i]), DirtyIn(c.sets[i]));
      copies := FlushSet(c.sets[i], wordsPerBlock, copies);
      i := i + 1;
    }
    assert c.sets[..|c.sets|] == c.sets;
    r := st.(copiesBack := copies);
  }

  /**
    `flush`: the write-back cost of every dirty line of every cache in use,
    charged to the data statistics. No line and no other counter changes.
   */
  method Flush(s: Sim) returns (r: Sim)
    ensures r.caches == s.caches && r.policy == s.policy && r.inst == s.inst
    ensures r.data == s.data.(copiesBack := s.data.copiesBack + s.policy.wordsPerBlock * DirtyLines(s.caches))
  {
    var wpb := s.policy.wordsPerBlock;
    var data := s.data;
    match s.caches {
      case Split(ic, dc) =>
        data := PerformFlush(ic, wpb, data);
        data := PerformFlush(dc, wpb, data);
        MulDistributes(wpb, DirtyInSets(ic.sets), DirtyInSets(dc.sets));
      case Unified(uc) =>
        data := PerformFlush(uc, wpb, data);
    }
    r := s.(data := data);
  }

  /**
    In a valid split run the instruction cache adds nothing to the flush,
    and under write-through the flush adds nothing at all.
   */
  lemma FlushCountsOnlyDirtyData(s: Sim)
    requires s.Valid()
    ensures s.caches.Split? ==> DirtyLines(s.caches) == DirtyInSets(s.caches.dcache.sets)
    ensures !s.policy.writeBack ==> DirtyLines(s.caches) == 0
  {
    match s.caches
    case Split(ic, dc) =>
      assert DirtyInSets(ic.sets) == 0;
      if !s.policy.writeBack {
        assert DirtyInSets(dc.sets) == 0;
      }
    case Unified(uc) =>
      if !s.policy.writeBack {
        assert DirtyInSets(uc.sets) == 0;
      }
  }
}
