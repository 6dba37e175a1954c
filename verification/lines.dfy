/**
  The resident lines of one cache set, kept in recency order.

  The simulator keeps each set as a doubly-linked list from `LRU_head`
  (most recently used) to `LRU_tail` (next eviction candidate) plus a
  `set_contents` counter. Here a set is the sequence of its lines from
  head to tail; the counter is the length of that sequence.
 */
module LineStore {
  import opened Wrappers

  /** One resident block: its tag and whether it holds data not yet written back. */
  datatype Line = Line(tag: nat, dirty: bool)

  /** The tags of a set, head first. */
  function Tags(lines: seq<Line>): seq<nat>
  {
    seq(|lines|, i requires 0 <= i < |lines| => lines[i].tag)
  }

  /** No two lines of the set share a tag. */
  predicate DistinctTags(lines: seq<Line>)
  {
    forall i, j :: 0 <= i < j < |lines| ==> lines[i].tag != lines[j].tag
  }

  /** The invariant every set keeps: at most `assoc` lines, no tag twice. */
  predicate Valid(lines: seq<Line>, assoc: nat)
  {
    |lines| <= assoc && DistinctTags(lines)
  }

  predicate Resident(lines: seq<Line>, tag: nat)
  {
    exists i :: 0 <= i < |lines| && lines[i].tag == tag
  }

  /** No line of the set is dirty. */
  predicate AllClean(lines: seq<Line>)
  {
    forall i :: 0 <= i < |lines| ==> !lines[i].dirty
  }

  /**
    The lookup loop of the access handlers: the position of the first line,
    counting from the head, whose tag matches.
   */
  function Find(lines: seq<Line>, tag: nat): (r: Option<nat>)
    ensures r.Some? ==> r.value < |lines| && lines[r.value].tag == tag
    ensures r.Some? ==> forall j :: 0 <= j < r.value ==> lines[j].tag != tag
    ensures r.None? <==> !Resident(lines, tag)
  {
    if |lines| == 0 then None
    else if lines[0].tag == tag then Some(0)
    else match Find(lines[1..], tag)
      case None => None
      case Some(k) => Some(k + 1)
  }

  /** `insert`: the line becomes the new head. */
  function Insert(lines: seq<Line>, line: Line): (r: seq<Line>)
    ensures |r| == |lines| + 1
    ensures r[0] == line && r[1..] == lines
  {
    [line] + lines
  }

  /** `delete`: the line at position i is unlinked; the others keep their order. */
  function Delete(lines: seq<Line>, i: nat): (r: seq<Line>)
    requires i < |lines|
    ensures |r| == |lines| - 1
    ensures forall j :: 0 <= j < i ==> r[j] == lines[j]
    ensures forall j :: i <= j < |r| ==> r[j] == lines[j + 1]
  {
    lines[..i] + lines[i + 1..]
  }

  /**
    A hit: the line at position i is deleted and re-inserted at the head.
    The lines in front of it move one place back, those behind it stay put.
   */
  function MoveToFront(lines: seq<Line>, i: nat): (r: seq<Line>)
    requires i < |lines|
    ensures |r| == |lines|
    ensures r[0] == lines[i]
    ensures forall j :: 0 <= j < i ==> r[j + 1] == lines[j]
    ensures forall j :: i < j < |lines| ==> r[j] == lines[j]
    ensures multiset(r) == multiset(lines)
  {
    var r := Insert(Delete(lines, i), lines[i]);
    assert lines == lines[..i] + [lines[i]] + lines[i + 1..];
    r
  }

  /** Eviction: the tail, the least recently used line, is deleted. */
  function DropTail(lines: seq<Line>): (r: seq<Line>)
    requires |lines| > 0
    ensures |r| == |lines| - 1
    ensures forall j :: 0 <= j < |r| ==> r[j] == lines[j]
  {
    Delete(lines, |lines| - 1)
  }

  /** Sets the dirty bit of the head line. */
  function SetHeadDirty(lines: seq<Line>, dirty: bool): (r: seq<Line>)
    requires |lines| > 0
    ensures |r| == |lines|
    ensures r[0] == Line(lines[0].tag, dirty)
    ensures r[1..] == lines[1..]
  {
    lines[0 := lines[0].(dirty := dirty)]
  }

  // ---------------------------------------------------------------------
  // The set invariant under the list operations

  lemma ResidentIffInTags(lines: seq<Line>, tag: nat)
    ensures Resident(lines, tag) <==> tag in Tags(lines)
  {
    if Resident(lines, tag) {
      var i :| 0 <= i < |lines| && lines[i].tag == tag;
      assert Tags(lines)[i] == tag;
    }
  }

  /** A hit's promotion keeps the set valid and its tags. */
  lemma MoveToFrontValid(lines: seq<Line>, i: nat, assoc: nat)
    requires i < |lines| && Valid(lines, assoc)
    ensures Valid(MoveToFront(lines, i), assoc)
    ensures forall t :: Resident(MoveToFront(lines, i), t) <==> Resident(lines, t)
  {
    var r := MoveToFront(lines, i);
    forall a, b | 0 <= a < b < |r|
      ensures r[a].tag != r[b].tag
    {
      var pa := if a == 0 then i else if a <= i then a - 1 else a;
      var pb := if b == 0 then i else if b <= i then b - 1 else b;
      assert r[a] == lines[pa] && r[b] == lines[pb];
      assert pa != pb;
    }
    forall t | Resident(lines, t)
      ensures Resident(r, t)
    {
      var k :| 0 <= k < |lines| && lines[k].tag == t;
      var pos := if k == i then 0 else if k < i then k + 1 else k;
      assert r[pos] == lines[k];
    }
    forall t | Resident(r, t)
      ensures Resident(lines, t)
    {
      var k :| 0 <= k < |r| && r[k].tag == t;
      var pos := if k == 0 then i else if k <= i then k - 1 else k;
      assert r[k] == lines[pos];
    }
  }

  /** Installing a line whose tag is absent at the head of a set with room keeps it valid. */
  lemma InsertValid(lines: seq<Line>, line: Line, assoc: nat)
    requires Valid(lines, assoc) && |lines| < assoc && !Resident(lines, line.tag)
    ensures Valid(Insert(lines, line), assoc)
  {
    var r := Insert(lines, line);
    forall a, b | 0 <= a < b < |r|
      ensures r[a].tag != r[b].tag
    {
      if a == 0 {
        assert r[b] == lines[b - 1];
      } else {
        assert r[a] == lines[a - 1] && r[b] == lines[b - 1];
      }
    }
  }

  /** Dropping the tail keeps the tags distinct and the rest resident. */
  lemma DropTailValid(lines: seq<Line>, assoc: nat)
    requires |lines| > 0 && Valid(lines, assoc)
    ensures Valid(DropTail(lines), assoc)
    ensures forall t :: Resident(DropTail(lines), t) ==> Resident(lines, t)
  {
    var r := DropTail(lines);
    forall t | Resident(r, t)
      ensures Resident(lines, t)
    {
      var k :| 0 <= k < |r| && r[k].tag == t;
      assert lines[k] == r[k];
    }
  }

  lemma SetHeadDirtyValid(lines: seq<Line>, dirty: bool, assoc: nat)
    requires |lines| > 0 && Valid(lines, assoc)
    ensures Valid(SetHeadDirty(lines, dirty), assoc)
  {
    var r := SetHeadDirty(lines, dirty);
    forall a, b | 0 <= a < b < |r|
      ensures r[a].tag != r[b].tag
    {
      assert r[a].tag == lines[a].tag && r[b].tag == lines[b].tag;
    }
  }
}
