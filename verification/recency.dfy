/**
  LRU replacement, stated independently of the list manipulation.

  After a stream of loads into one set, the set holds the `assoc` most
  recently used distinct tags, most recent first, and a load misses
  exactly when its tag is not among the `assoc` most recently used ones
  before it. `Mru` gives the recency order of a stream directly; the
  lemmas below show that the handlers' promote/evict steps produce it.
 */
module Recency {
  import opened Wrappers
  import opened LineStore
  import opened Statistics
  import opened AccessHandlers

  predicate Distinct(s: seq<nat>)
  {
    forall i, j :: 0 <= i < j < |s| ==> s[i] != s[j]
  }

  /** s with every occurrence of t removed. */
  function Without(s: seq<nat>, t: nat): (r: seq<nat>)
    ensures forall x :: x in r <==> x in s && x != t
    ensures |r| <= |s|
    decreases |s|
  {
    if |s| == 0 then []
    else (if s[0] == t then [] else [s[0]]) + Without(s[1..], t)
  }

  /** The first n elements of s, or all of s when it is shorter. */
  function Take(s: seq<nat>, n: nat): (r: seq<nat>)
    ensures |r| == if |s| <= n then |s| else n
    ensures r == s[..|r|]
  {
    if |s| <= n then s else s[..n]
  }

  /** The distinct tags of a stream of accesses, the most recently used first. */
  function Mru(trace: seq<nat>): (r: seq<nat>)
    ensures Distinct(r)
    ensures forall x :: x in r <==> x in trace
    decreases |trace|
  {
    if |trace| == 0 then []
    else
      var last := trace[|trace| - 1];
      var r := [last] + Without(Mru(trace[..|trace| - 1]), last);
      assert forall x :: x in trace <==> x in trace[..|trace| - 1] || x == last;
      WithoutDistinct(Mru(trace[..|trace| - 1]), last);
      ConsDistinct(last, Without(Mru(trace[..|trace| - 1]), last));
      r
  }

  /** The number of accesses of the stream whose tag is not among the `assoc` most recently used before it. */
  function LruMisses(trace: seq<nat>, assoc: nat): (n: nat)
    ensures n <= |trace|
    decreases |trace|
  {
    if |trace| == 0 then 0
    else
      var prefix := trace[..|trace| - 1];
      LruMisses(prefix, assoc) + (if trace[|trace| - 1] in Take(Mru(prefix), assoc) then 0 else 1)
  }

  /** Loads of each tag of the stream, in order, into a set that starts empty. */
  function LoadRun(assoc: nat, wordsPerBlock: nat, trace: seq<nat>, st: Stats): Outcome
    decreases |trace|
  {
    if |trace| == 0 then Outcome([], st)
    else
      var o := LoadRun(assoc, wordsPerBlock, trace[..|trace| - 1], st);
      Load(assoc, wordsPerBlock, o.lines, trace[|trace| - 1], o.stats)
  }

  // ---------------------------------------------------------------------
  // Sequence facts

  lemma ConsDistinct(x: nat, w: seq<nat>)
    requires Distinct(w) && x !in w
    ensures Distinct([x] + w)
  {
    var r := [x] + w;
    forall i, j | 0 <= i < j < |r|
      ensures r[i] != r[j]
    {
      assert r[j] == w[j - 1];
      if i > 0 {
        assert r[i] == w[i - 1];
      }
    }
  }

  /** In a distinct sequence an element occurs neither before nor after its position. */
  lemma DistinctNotIn(s: seq<nat>, p: nat)
    requires Distinct(s) && p < |s|
    ensures s[p] !in s[..p] && s[p] !in s[p + 1..]
  {
    forall y | y in s[..p]
      ensures y != s[p]
    {
      var k :| 0 <= k < p && s[..p][k] == y;
      assert s[k] == y;
    }
    var rest := s[p + 1..];
    forall k | 0 <= k < |rest|
      ensures rest[k] != s[p]
    {
      assert rest[k] == s[p + 1 + k];
    }
  }

  lemma {:induction false} WithoutDistinct(s: seq<nat>, t: nat)
    requires Distinct(s)
    ensures Distinct(Without(s, t))
    decreases |s|
  {
    if |s| > 0 {
      WithoutDistinct(s[1..], t);
      var r := Without(s, t);
      if s[0] != t {
        forall i, j | 0 <= i < j < |r|
          ensures r[i] != r[j]
        {
          if i == 0 {
            assert r[j] in Without(s[1..], t);
            assert s[0] !in s[1..];
          } else {
            assert r[i] == Without(s[1..], t)[i - 1] && r[j] == Without(s[1..], t)[j - 1];
          }
        }
      }
    }
  }

  lemma {:induction false} WithoutAbsent(s: seq<nat>, t: nat)
    requires t !in s
    ensures Without(s, t) == s
    decreases |s|
  {
    if |s| > 0 {
      WithoutAbsent(s[1..], t);
      assert s == [s[0]] + s[1..];
    }
  }

  lemma {:induction false} WithoutConcat(a: seq<nat>, b: seq<nat>, t: nat)
    ensures Without(a + b, t) == Without(a, t) + Without(b, t)
    decreases |a|
  {
    if |a| > 0 {
      assert (a + b)[1..] == a[1..] + b;
      WithoutConcat(a[1..], b, t);
    } else {
      assert a + b == b;
    }
  }

  /** Removing an element of a distinct sequence closes the gap it leaves. */
  lemma WithoutAt(s: seq<nat>, p: nat)
    requires Distinct(s) && p < |s|
    ensures Without(s, s[p]) == s[..p] + s[p + 1..]
  {
    var t := s[p];
    var a, b := s[..p], s[p + 1..];
    var tb := [t] + b;
    assert s == a + tb;
    DistinctNotIn(s, p);
    WithoutConcat(a, tb, t);
    WithoutConcat([t], b, t);
    WithoutAbsent(a, t);
    WithoutAbsent(b, t);
    assert Without([t], t) == [];
    assert Without(tb, t) == b;
    assert Without(s, t) == a + b;
  }

  lemma TagsOfMoveToFront(lines: seq<Line>, i: nat)
    requires i < |lines|
    ensures Tags(MoveToFront(lines, i)) == [lines[i].tag] + Tags(lines)[..i] + Tags(lines)[i + 1..]
  {
    var r := MoveToFront(lines, i);
    var ts := Tags(lines);
    var a := Tags(r);
    var b := [lines[i].tag] + ts[..i] + ts[i + 1..];
    assert |a| == |b|;
    forall j | 0 <= j < |a|
      ensures a[j] == b[j]
    {
      if j == 0 {
        assert a[0] == r[0].tag;
      } else if j <= i {
        assert b[j] == ts[..i][j - 1] == ts[j - 1];
        assert r[(j - 1) + 1] == lines[j - 1];
      } else {
        assert b[j] == ts[i + 1..][j - i - 1] == ts[j];
        assert r[j] == lines[j];
      }
    }
  }

  lemma TagsOfPrepend(line: Line, rest: seq<Line>, lines: seq<Line>)
    requires |lines| > 0 && lines[0] == line && lines[1..] == rest
    ensures Tags(lines) == [line.tag] + Tags(rest)
  {
    var a, b := Tags(lines), [line.tag] + Tags(rest);
    assert |a| == |b|;
    forall j | 0 <= j < |a|
      ensures a[j] == b[j]
    {
      if j > 0 {
        assert lines[j] == rest[j - 1];
      }
    }
  }

  lemma TagsOfDropTail(lines: seq<Line>)
    requires |lines| > 0
    ensures Tags(DropTail(lines)) == Tags(lines)[..|lines| - 1]
  {
  }

  // ---------------------------------------------------------------------
  // One access against the recency order

  /** A hit on the tag at position p of the resident prefix. */
  lemma StepHit(m: seq<nat>, assoc: nat, p: nat)
    requires Distinct(m) && p < |Take(m, assoc)|
    ensures Take([m[p]] + Without(m, m[p]), assoc)
            == [m[p]] + Take(m, assoc)[..p] + Take(m, assoc)[p + 1..]
  {
    WithoutAt(m, p);
    if |m| > assoc {
      GapPrefix(m, p, assoc);
    }
  }

  /** Closing the gap at p < k and keeping k - 1 elements is the prefix of length k with the gap closed. */
  lemma GapPrefix(m: seq<nat>, p: nat, k: nat)
    requires p < k < |m|
    ensures Take([m[p]] + (m[..p] + m[p + 1..]), k) == [m[p]] + m[..k][..p] + m[..k][p + 1..]
  {
    var w := m[..p] + m[p + 1..];
    var a := Take([m[p]] + w, k);
    var b := [m[p]] + m[..k][..p] + m[..k][p + 1..];
    assert |a| == k == |b|;
    forall j | 0 <= j < k
      ensures a[j] == b[j]
    {
      if j == 0 {
      } else if j <= p {
        assert a[j] == w[j - 1] == m[j - 1];
        assert b[j] == m[..k][..p][j - 1];
      } else {
        assert a[j] == w[j - 1] == m[j];
        assert b[j] == m[..k][p + 1..][j - 1 - p];
      }
    }
  }

  /** A miss on a set that is not full. */
  lemma StepMissRoom(m: seq<nat>, assoc: nat, x: nat)
    requires |m| < assoc && x !in m
    ensures Take([x] + Without(m, x), assoc) == [x] + m
  {
    WithoutAbsent(m, x);
  }

  /** A miss on a full set: the least recently used of the resident tags goes. */
  lemma StepMissFull(m: seq<nat>, assoc: nat, x: nat)
    requires assoc >= 1 && |m| >= assoc && x !in m[..assoc]
    ensures Take([x] + Without(m, x), assoc) == [x] + m[..assoc - 1]
  {
    var k := assoc - 1;
    assert m == m[..k] + m[k..];
    WithoutConcat(m[..k], m[k..], x);
    assert x !in m[..k] by {
      assert forall y :: y in m[..k] ==> y in m[..assoc];
    }
    WithoutAbsent(m[..k], x);
    var w := Without(m, x);
    assert w == m[..k] + Without(m[k..], x);
    assert w[..k] == m[..k];
  }

  /** One load against a set that holds the first `assoc` tags of the recency order m. */
  lemma LoadStep(assoc: nat, wordsPerBlock: nat, lines: seq<Line>, x: nat, st: Stats, m: seq<nat>)
    requires assoc >= 1 && Valid(lines, assoc) && Distinct(m) && Tags(lines) == Take(m, assoc)
    ensures var o := Load(assoc, wordsPerBlock, lines, x, st);
            && Tags(o.lines) == Take([x] + Without(m, x), assoc)
            && o.stats.misses == st.misses + (if x in Take(m, assoc) then 0 else 1)
  {
    var o := Load(assoc, wordsPerBlock, lines, x, st);
    var ts := Tags(lines);
    ResidentIffInTags(lines, x);
    if Resident(lines, x) {
      var i := Find(lines, x).value;
      TagsOfMoveToFront(lines, i);
      assert ts[i] == x;
      StepHit(m, assoc, i);
    } else {
      var fetched := Fetched(st.(accesses := st.accesses + 1), wordsPerBlock);
      assert Installed(assoc, wordsPerBlock, lines, Line(x, false), fetched, o);
      if |lines| == 0 || |lines| < assoc {
        TagsOfPrepend(Line(x, false), lines, o.lines);
        StepMissRoom(m, assoc, x);
      } else {
        TagsOfPrepend(Line(x, false), DropTail(lines), o.lines);
        TagsOfDropTail(lines);
        assert ts == m[..assoc];
        StepMissFull(m, assoc, x);
      }
    }
  }

  // ---------------------------------------------------------------------
  // The theorem

  /**
    Loads of a stream into an empty set leave it holding the `assoc` most
    recently used distinct tags in recency order; the misses are exactly
    the accesses whose tag was not among them; every access is counted.
   */
  lemma {:induction false} LoadsFollowRecency(assoc: nat, wordsPerBlock: nat, trace: seq<nat>, st: Stats)
    requires assoc >= 1
    ensures var o := LoadRun(assoc, wordsPerBlock, trace, st);
            && Tags(o.lines) == Take(Mru(trace), assoc)
            && Valid(o.lines, assoc)
            && o.stats.misses == st.misses + LruMisses(trace, assoc)
            && o.stats.accesses == st.accesses + |trace|
    decreases |trace|
  {
    if |trace| > 0 {
      var prefix := trace[..|trace| - 1];
      var x := trace[|trace| - 1];
      LoadsFollowRecency(assoc, wordsPerBlock, prefix, st);
      var before := LoadRun(assoc, wordsPerBlock, prefix, st);
      LoadKeepsValid(assoc, wordsPerBlock, before.lines, x, before.stats);
      LoadStep(assoc, wordsPerBlock, before.lines, x, before.stats, Mru(prefix));
    }
  }
}
