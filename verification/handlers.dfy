/**
  The access handlers `data_load`, `data_store` and `instruction_load`,
  each acting on one set of one cache and one statistics block.

  `instruction_load` runs the same steps as `data_load`; the two differ
  only in the statistics block they update, which the caller passes in.
  So one function, `Load`, models both, and the dispatcher chooses the
  block.
 */
module AccessHandlers {
  import opened Wrappers
  import opened LineStore
  import opened Statistics

  /** The configuration the handlers read: write policy, allocation policy, block size in words. */
  datatype Policy = Policy(writeBack: bool, writeAlloc: bool, wordsPerBlock: nat)

  /** What a handler leaves behind: the set and the statistics block. */
  datatype Outcome = Outcome(lines: seq<Line>, stats: Stats)

  /** The cost of writing back an evicted line: a whole block if it was dirty. */
  function WriteBackCost(line: Line, wordsPerBlock: nat): nat
  {
    if line.dirty then wordsPerBlock else 0
  }

  /**
    How a miss installs `line`, described against the statistics `st` the
    handler had before the install step: the line becomes the head; a set
    with room (or an empty one) just grows; a full set first loses its tail,
    counting one replacement and the write-back of the tail if dirty.
    Nothing else in the statistics moves.
   */
  predicate Installed(assoc: nat, wordsPerBlock: nat, lines: seq<Line>, line: Line, st: Stats, o: Outcome)
  {
    && |o.lines| > 0 && o.lines[0] == line
    && o.stats.accesses == st.accesses
    && o.stats.misses == st.misses
    && o.stats.demandFetches == st.demandFetches
    && if |lines| == 0 || |lines| < assoc then
         && o.lines[1..] == lines
         && o.stats.replacements == st.replacements
         && o.stats.copiesBack == st.copiesBack
       else
         && o.lines[1..] == DropTail(lines)
         && o.stats.replacements == st.replacements + 1
         && o.stats.copiesBack == st.copiesBack + WriteBackCost(lines[|lines| - 1], wordsPerBlock)
  }

  /** The install step shared by every miss that allocates. */
  function Fill(assoc: nat, wordsPerBlock: nat, lines: seq<Line>, line: Line, st: Stats): (o: Outcome)
    requires |lines| > 0 || assoc > 0
    ensures Installed(assoc, wordsPerBlock, lines, line, st, o)
  {
    if |lines| < assoc then
      Outcome(Insert(lines, line), st)
    else
      var victim := lines[|lines| - 1];
      Outcome(Insert(DropTail(lines), line),
              st.(replacements := st.replacements + 1,
                  copiesBack := st.copiesBack + WriteBackCost(victim, wordsPerBlock)))
  }

  /** The statistics after a miss that fetches one block. */
  function Fetched(st: Stats, wordsPerBlock: nat): Stats
  {
    st.(misses := st.misses + 1, demandFetches := st.demandFetches + wordsPerBlock)
  }

  /**
    `data_load` and `instruction_load`: a hit promotes the line and moves no
    other counter; a miss fetches the block and installs a clean line.
   */
  function Load(assoc: nat, wordsPerBlock: nat, lines: seq<Line>, tag: nat, st: Stats): (o: Outcome)
    ensures o.stats.accesses == st.accesses + 1
    ensures Resident(lines, tag) ==>
              && o.lines == MoveToFront(lines, Find(lines, tag).value)
              && o.stats == st.(accesses := st.accesses + 1)
    ensures !Resident(lines, tag) ==>
              Installed(assoc, wordsPerBlock, lines, Line(tag, false),
                        Fetched(st.(accesses := st.accesses + 1), wordsPerBlock), o)
  {
    var st := st.(accesses := st.accesses + 1);
    if |lines| == 0 then
      // compulsory miss
      Outcome([Line(tag, false)], Fetched(st, wordsPerBlock))
    else
      match Find(lines, tag)
      case Some(i) =>
        Outcome(MoveToFront(lines, i), st)
      case None =>
        Fill(assoc, wordsPerBlock, lines, Line(tag, false), Fetched(st, wordsPerBlock))
  }

  /** The line a write-allocate store installs, and the write-through word it costs. */
  function StoredLine(p: Policy, tag: nat): Line
  {
    Line(tag, p.writeBack)
  }

  function WriteThroughCost(p: Policy): nat
  {
    if p.writeBack then 0 else 1
  }

  /**
    `data_store`. A hit promotes the line; under write-back the line becomes
    dirty, under write-through it stays clean and one word is copied back.
    A miss under write-allocate fetches the block and installs the line
    (dirty under write-back; clean plus one copied-back word under
    write-through). A miss under no-write-allocate leaves the set alone
    and copies one word back.
   */
  function Store(p: Policy, assoc: nat, lines: seq<Line>, tag: nat, st: Stats): (o: Outcome)
    ensures o.stats.accesses == st.accesses + 1
    ensures Resident(lines, tag) ==>
              && var promoted := MoveToFront(lines, Find(lines, tag).value);
              && o.lines == SetHeadDirty(promoted, p.writeBack)
              && o.stats == st.(accesses := st.accesses + 1,
                                copiesBack := st.copiesBack + WriteThroughCost(p))
    ensures !Resident(lines, tag) && p.writeAlloc ==>
              Installed(assoc, p.wordsPerBlock, lines, StoredLine(p, tag),
                        Fetched(st.(accesses := st.accesses + 1), p.wordsPerBlock)
                          .(copiesBack := st.copiesBack + WriteThroughCost(p)), o)
    ensures !Resident(lines, tag) && !p.writeAlloc ==>
              && o.lines == lines
              && o.stats == st.(accesses := st.accesses + 1, misses := st.misses + 1,
                                copiesBack := st.copiesBack + 1)
  {
    var st := st.(accesses := st.accesses + 1);
    if |lines| == 0 then
      // compulsory miss
      var st := st.(misses := st.misses + 1);
      if p.writeAlloc then
        var st := st.(demandFetches := st.demandFetches + p.wordsPerBlock,
                      copiesBack := st.copiesBack + WriteThroughCost(p));
        Outcome([StoredLine(p, tag)], st)
      else
        Outcome(lines, st.(copiesBack := st.copiesBack + 1))
    else
      match Find(lines, tag)
      case Some(i) =>
        Outcome(SetHeadDirty(MoveToFront(lines, i), p.writeBack),
                st.(copiesBack := st.copiesBack + WriteThroughCost(p)))
      case None =>
        var st := st.(misses := st.misses + 1);
        if p.writeAlloc then
          var st := st.(demandFetches := st.demandFetches + p.wordsPerBlock,
                        copiesBack := st.copiesBack + WriteThroughCost(p));
          Fill(assoc, p.wordsPerBlock, lines, StoredLine(p, tag), st)
        else
          Outcome(lines, st.(copiesBack := st.copiesBack + 1))
  }

  // ---------------------------------------------------------------------
  // The compulsory-miss paths

  /** The empty-set path of a load is the ordinary miss path on a set with room. */
  lemma LoadCompulsoryIsFill(assoc: nat, wordsPerBlock: nat, tag: nat, st: Stats)
    requires assoc >= 1
    ensures Load(assoc, wordsPerBlock, [], tag, st)
            == Fill(assoc, wordsPerBlock, [], Line(tag, false),
                    Fetched(st.(accesses := st.accesses + 1), wordsPerBlock))
  {
  }

  /** The empty-set path of a write-allocate store is the ordinary miss path on a set with room. */
  lemma StoreCompulsoryIsFill(p: Policy, assoc: nat, tag: nat, st: Stats)
    requires assoc >= 1 && p.writeAlloc
    ensures Store(p, assoc, [], tag, st)
            == Fill(assoc, p.wordsPerBlock, [], StoredLine(p, tag),
                    Fetched(st.(accesses := st.accesses + 1), p.wordsPerBlock)
                      .(copiesBack := st.copiesBack + WriteThroughCost(p)))
  {
  }

  // ---------------------------------------------------------------------
  // The set invariant

  lemma InstalledValid(assoc: nat, wordsPerBlock: nat, lines: seq<Line>, line: Line, st: Stats, o: Outcome)
    requires assoc >= 1 && Valid(lines, assoc) && !Resident(lines, line.tag)
    requires Installed(assoc, wordsPerBlock, lines, line, st, o)
    ensures Valid(o.lines, assoc) && Resident(o.lines, line.tag)
    ensures AllClean(lines) && !line.dirty ==> AllClean(o.lines)
  {
    var kept := o.lines[1..];
    if |lines| == 0 || |lines| < assoc {
      assert o.lines == Insert(lines, line);
      InsertValid(lines, line, assoc);
    } else {
      DropTailValid(lines, assoc);
      assert o.lines == Insert(DropTail(lines), line);
      InsertValid(DropTail(lines), line, assoc);
    }
    assert o.lines[0].tag == line.tag;
    if AllClean(lines) && !line.dirty {
      forall j | 0 <= j < |o.lines|
        ensures !o.lines[j].dirty
      {
        if j > 0 {
          assert o.lines[j] == kept[j - 1];
        }
      }
    }
  }

  /** A load keeps the set valid, leaves the tag resident, and installs only clean lines. */
  lemma LoadKeepsValid(assoc: nat, wordsPerBlock: nat, lines: seq<Line>, tag: nat, st: Stats)
    requires assoc >= 1 && Valid(lines, assoc)
    ensures var o := Load(assoc, wordsPerBlock, lines, tag, st);
            && Valid(o.lines, assoc)
            && Resident(o.lines, tag)
            && (AllClean(lines) ==> AllClean(o.lines))
  {
    var o := Load(assoc, wordsPerBlock, lines, tag, st);
    if Resident(lines, tag) {
      var i := Find(lines, tag).value;
      MoveToFrontValid(lines, i, assoc);
      assert o.lines[0].tag == tag;
    } else {
      InstalledValid(assoc, wordsPerBlock, lines, Line(tag, false),
                     Fetched(st.(accesses := st.accesses + 1), wordsPerBlock), o);
    }
  }

  /**
    A store keeps the set valid; afterwards the tag is resident exactly when
    it was a hit or the cache allocates on writes; under write-through no
    line becomes dirty.
   */
  lemma StoreKeepsValid(p: Policy, assoc: nat, lines: seq<Line>, tag: nat, st: Stats)
    requires assoc >= 1 && Valid(lines, assoc)
    ensures var o := Store(p, assoc, lines, tag, st);
            && Valid(o.lines, assoc)
            && (Resident(o.lines, tag) <==> Resident(lines, tag) || p.writeAlloc)
            && (!p.writeBack && AllClean(lines) ==> AllClean(o.lines))
  {
    var o := Store(p, assoc, lines, tag, st);
    if Resident(lines, tag) {
      var i := Find(lines, tag).value;
      var promoted := MoveToFront(lines, i);
      MoveToFrontValid(lines, i, assoc);
      SetHeadDirtyValid(promoted, p.writeBack, assoc);
      assert o.lines[0].tag == tag;
      if !p.writeBack && AllClean(lines) {
        forall j | 0 <= j < |o.lines|
          ensures !o.lines[j].dirty
        {
          if j > 0 {
            assert o.lines[j] == promoted[j];
            assert promoted[j] in multiset(lines);
          }
        }
      }
    } else if p.writeAlloc {
      InstalledValid(assoc, p.wordsPerBlock, lines, StoredLine(p, tag),
                     Fetched(st.(accesses := st.accesses + 1), p.wordsPerBlock)
                       .(copiesBack := st.copiesBack + WriteThroughCost(p)), o);
    }
  }

  // ---------------------------------------------------------------------
  // Statistics

  /** One block more per miss: the fetch keeps the counters consistent. */
  lemma FetchedConsistent(st: Stats, wordsPerBlock: nat)
    requires Consistent(st, wordsPerBlock)
    ensures var f := Fetched(st.(accesses := st.accesses + 1), wordsPerBlock);
            && Consistent(f, wordsPerBlock)
            && f.demandFetches - st.demandFetches == wordsPerBlock * (f.misses - st.misses)
  {
    assert wordsPerBlock * (st.misses + 1) == wordsPerBlock * st.misses + wordsPerBlock;
  }

  /** A load only raises counters, keeps them consistent, and fetches exactly one block per miss. */
  lemma LoadStats(assoc: nat, wordsPerBlock: nat, lines: seq<Line>, tag: nat, st: Stats)
    requires Consistent(st, wordsPerBlock)
    ensures var o := Load(assoc, wordsPerBlock, lines, tag, st);
            && Le(st, o.stats)
            && Consistent(o.stats, wordsPerBlock)
            && o.stats.demandFetches - st.demandFetches == wordsPerBlock * (o.stats.misses - st.misses)
            && o.stats.copiesBack - st.copiesBack in {0, wordsPerBlock}
  {
    if !Resident(lines, tag) {
      FetchedConsistent(st, wordsPerBlock);
    }
  }

  /** A store only raises counters and keeps them consistent. */
  lemma StoreStats(p: Policy, assoc: nat, lines: seq<Line>, tag: nat, st: Stats)
    requires Consistent(st, p.wordsPerBlock)
    ensures var o := Store(p, assoc, lines, tag, st);
            && Le(st, o.stats)
            && Consistent(o.stats, p.wordsPerBlock)
  {
    if !Resident(lines, tag) {
      FetchedConsistent(st, p.wordsPerBlock);
    }
  }

  /**
    Write-through traffic: once no line of the set is dirty (as under
    write-through), every store, hit or miss, copies back exactly one word.
   */
  lemma WriteThroughStoreCostsOneWord(p: Policy, assoc: nat, lines: seq<Line>, tag: nat, st: Stats)
    requires !p.writeBack && AllClean(lines)
    ensures Store(p, assoc, lines, tag, st).stats.copiesBack == st.copiesBack + 1
  {
  }

  /**
    Write-back, write-allocate traffic: a store copies back nothing, or one
    whole block when it evicts a dirty tail.
   */
  lemma WriteBackStoreCost(p: Policy, assoc: nat, lines: seq<Line>, tag: nat, st: Stats)
    requires p.writeBack && p.writeAlloc
    ensures var o := Store(p, assoc, lines, tag, st);
            && o.stats.copiesBack - st.copiesBack in {0, p.wordsPerBlock}
            && (o.stats.copiesBack != st.copiesBack ==>
                  o.stats.replacements == st.replacements + 1 && lines[|lines| - 1].dirty)
  {
  }

  /**
    Under write-allocate a store changes the set's tags exactly as a load
    does: only the dirty bits differ.
   */
  lemma StoreTagsLikeLoad(p: Policy, assoc: nat, lines: seq<Line>, tag: nat, st: Stats, st': Stats)
    requires p.writeAlloc
    ensures Tags(Store(p, assoc, lines, tag, st).lines) == Tags(Load(assoc, p.wordsPerBlock, lines, tag, st').lines)
  {
    var a := Store(p, assoc, lines, tag, st).lines;
    var b := Load(assoc, p.wordsPerBlock, lines, tag, st').lines;
    assert |a| == |b|;
    forall j | 0 <= j < |a|
      ensures a[j].tag == b[j].tag
    {
      if j > 0 {
        assert a[j] == a[1..][j - 1] && b[j] == b[1..][j - 1];
      }
    }
    assert Tags(a) == Tags(b);
  }
}
