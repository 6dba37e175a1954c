/**
  The pointer-level recency list behind each set: `insert`, `delete` and
  the lookup loop of the handlers.

  The heap is a map from pointers to nodes; a set is given by its head and
  tail pointers. `Represents` ties such a list to the sequence of pointers
  it links, head first, and `LinesOf` reads the lines off that sequence.
  The lemmas show that `insert` is a prepend and `delete` a removal at one
  position, so the sequence operations of `LineStore` describe them.
 */
module LinkedSet {
  import opened Wrappers
  import opened LineStore

  type Ptr = nat

  datatype Node = Node(line: Line, prev: Option<Ptr>, next: Option<Ptr>)

  /** The node store and one set's head and tail pointers. */
  datatype Links = Links(heap: map<Ptr, Node>, head: Option<Ptr>, tail: Option<Ptr>)

  predicate DistinctPtrs(ps: seq<Ptr>)
  {
    forall i, j :: 0 <= i < j < |ps| ==> ps[i] != ps[j]
  }

  /**
    `l` links exactly the nodes `ps`, in order: the head is the first, the
    tail the last, and each node's `prev`/`next` point to its neighbours.
   */
  predicate Represents(l: Links, ps: seq<Ptr>)
  {
    && DistinctPtrs(ps)
    && (forall i :: 0 <= i < |ps| ==> ps[i] in l.heap)
    && l.head == (if |ps| == 0 then None else Some(ps[0]))
    && l.tail == (if |ps| == 0 then None else Some(ps[|ps| - 1]))
    && (|ps| > 0 ==> l.heap[ps[0]].prev == None && l.heap[ps[|ps| - 1]].next == None)
    && (forall i, j {:trigger ps[i], ps[j]} :: 0 <= i < |ps| && 0 <= j < |ps| && j == i + 1 ==>
          l.heap[ps[i]].next == Some(ps[j]) && l.heap[ps[j]].prev == Some(ps[i]))
  }

  /** The neighbours of the node at position i, as its links record them. */
  lemma Neighbours(l: Links, ps: seq<Ptr>, i: nat)
    requires Represents(l, ps) && i < |ps|
    ensures l.heap[ps[i]].prev == if i == 0 then None else Some(ps[i - 1])
    ensures l.heap[ps[i]].next == if i == |ps| - 1 then None else Some(ps[i + 1])
  {
    if i > 0 {
      assert ps[i - 1] in l.heap;
    }
    if i < |ps| - 1 {
      assert ps[i + 1] in l.heap;
    }
  }

  /** The lines of the set, head first. */
  function LinesOf(l: Links, ps: seq<Ptr>): (r: seq<Line>)
    requires forall i :: 0 <= i < |ps| ==> ps[i] in l.heap
    ensures |r| == |ps|
  {
    seq(|ps|, i requires 0 <= i < |ps| => l.heap[ps[i]].line)
  }

  /** `insert`: `item` becomes the head, in front of the old head. */
  function InsertNode(l: Links, item: Ptr): (r: Links)
    requires item in l.heap
    requires l.head.Some? ==> l.head.value in l.heap
    ensures r.heap.Keys == l.heap.Keys
    ensures r.head == Some(item)
    ensures r.tail == (if l.head.Some? then l.tail else Some(item))
    ensures l.head != Some(item) ==> r.heap[item] == l.heap[item].(next := l.head, prev := None)
    ensures l.head.Some? && l.head != Some(item) ==>
              r.heap[l.head.value] == l.heap[l.head.value].(prev := Some(item))
    ensures forall p :: p in l.heap && p != item && Some(p) != l.head ==> r.heap[p] == l.heap[p]
  {
    var heap := l.heap[item := l.heap[item].(next := l.head, prev := None)];
    match l.head
    case Some(h) => Links(heap[h := heap[h].(prev := Some(item))], Some(item), l.tail)
    case None => Links(heap, Some(item), Some(item))
  }

  /** `delete`: `item`'s neighbours are linked to each other, or the head/tail pointer moves past it. */
  function DeleteNode(l: Links, item: Ptr): (r: Links)
    requires item in l.heap
    requires l.heap[item].prev.Some? ==> l.heap[item].prev.value in l.heap
    requires l.heap[item].next.Some? ==> l.heap[item].next.value in l.heap
    ensures r.heap.Keys == l.heap.Keys
    ensures r.head == (if l.heap[item].prev.Some? then l.head else l.heap[item].next)
    ensures r.tail == (if l.heap[item].next.Some? then l.tail else l.heap[item].prev)
    ensures forall p :: p in l.heap && Some(p) != l.heap[item].prev && Some(p) != l.heap[item].next ==>
              r.heap[p] == l.heap[p]
  {
    var n := l.heap[item];
    var l1 := match n.prev
      case Some(p) => l.(heap := l.heap[p := l.heap[p].(next := n.next)])
      case None => l.(head := n.next);
    match n.next
    case Some(q) => l1.(heap := l1.heap[q := l1.heap[q].(prev := n.prev)])
    case None => l1.(tail := n.prev)
  }

  /** Inserting a node not yet linked prepends it. */
  lemma InsertPrepends(l: Links, ps: seq<Ptr>, item: Ptr)
    requires Represents(l, ps) && item in l.heap && item !in ps
    ensures Represents(InsertNode(l, item), [item] + ps)
    ensures LinesOf(InsertNode(l, item), [item] + ps) == Insert(LinesOf(l, ps), l.heap[item].line)
  {
    var r := InsertNode(l, item);
    var qs := [item] + ps;
    forall k | 0 <= k < |qs|
      ensures qs[k] in r.heap
      ensures r.heap[qs[k]].prev == if k == 0 then None else Some(qs[k - 1])
      ensures r.heap[qs[k]].next == if k == |qs| - 1 then None else Some(qs[k + 1])
      ensures r.heap[qs[k]].line == if k == 0 then l.heap[item].line else l.heap[ps[k - 1]].line
    {
      if k > 0 {
        assert qs[k] == ps[k - 1] != item;
        Neighbours(l, ps, k - 1);
      }
    }
    forall a, b | 0 <= a < b < |qs|
      ensures qs[a] != qs[b]
    {
      if a > 0 {
        assert qs[a] == ps[a - 1];
      }
      assert qs[b] == ps[b - 1];
    }
    assert LinesOf(r, qs) == Insert(LinesOf(l, ps), l.heap[item].line);
  }

  /**
    What `delete` does, for a node that is not its own neighbour: the
    neighbours (or the end pointers) now point past it, nothing else moves.
   */
  lemma DeleteEffect(l: Links, item: Ptr)
    requires item in l.heap
    requires l.heap[item].prev.Some? ==> l.heap[item].prev.value in l.heap
    requires l.heap[item].next.Some? ==> l.heap[item].next.value in l.heap
    requires l.heap[item].prev != Some(item) && l.heap[item].next != Some(item)
    requires l.heap[item].prev.Some? ==> l.heap[item].prev != l.heap[item].next
    ensures var n := l.heap[item];
            var r := DeleteNode(l, item);
            && r.heap.Keys == l.heap.Keys
            && r.head == (if n.prev.Some? then l.head else n.next)
            && r.tail == (if n.next.Some? then l.tail else n.prev)
            && (n.prev.Some? ==> r.heap[n.prev.value] == l.heap[n.prev.value].(next := n.next))
            && (n.next.Some? ==> r.heap[n.next.value] == l.heap[n.next.value].(prev := n.prev))
            && (forall p :: p in l.heap && Some(p) != n.prev && Some(p) != n.next ==> r.heap[p] == l.heap[p])
  {
  }

  /** The sequence ps without its element at position i. */
  function RemoveAt(ps: seq<Ptr>, i: nat): (qs: seq<Ptr>)
    requires i < |ps|
    ensures |qs| == |ps| - 1
  {
    seq(|ps| - 1, k requires 0 <= k < |ps| - 1 => if k < i then ps[k] else ps[k + 1])
  }

  /**
    The node at position k of the shortened list, after `delete` unlinks
    the node at position i: the same line, linked to its new neighbours.
   */
  lemma DeletedNode(l: Links, ps: seq<Ptr>, i: nat, k: nat)
    requires Represents(l, ps) && i < |ps| && k < |ps| - 1
    ensures (Neighbours(l, ps, i);
             var r := DeleteNode(l, ps[i]);
             var qs := RemoveAt(ps, i);
             && qs[k] in r.heap
             && r.heap[qs[k]].line == l.heap[ps[if k < i then k else k + 1]].line
             && r.heap[qs[k]].prev == (if k == 0 then None else Some(qs[k - 1]))
             && r.heap[qs[k]].next == (if k == |qs| - 1 then None else Some(qs[k + 1])))
  {
    var qs := RemoveAt(ps, i);
    var pos := if k < i then k else k + 1;
    Neighbours(l, ps, i);
    Neighbours(l, ps, pos);
    DeleteEffect(l, ps[i]);
    assert qs[k] == ps[pos];
    if k > 0 {
      assert qs[k - 1] == ps[if k - 1 < i then k - 1 else k];
    }
    if k < |qs| - 1 {
      assert qs[k + 1] == ps[if k + 1 < i then k + 1 else k + 2];
    }
  }

  /** After `delete`, the list links the remaining nodes in their old order. */
  lemma DeleteRemoves(l: Links, ps: seq<Ptr>, i: nat)
    requires Represents(l, ps) && i < |ps|
    ensures (Neighbours(l, ps, i);
             var r := DeleteNode(l, ps[i]);
             && Represents(r, RemoveAt(ps, i))
             && ps[i] in r.heap && r.heap[ps[i]].line == l.heap[ps[i]].line)
  {
    Neighbours(l, ps, i);
    DeleteEffect(l, ps[i]);
    var r := DeleteNode(l, ps[i]);
    var qs := RemoveAt(ps, i);
    forall k | 0 <= k < |qs|
      ensures qs[k] in r.heap
      ensures r.heap[qs[k]].prev == (if k == 0 then None else Some(qs[k - 1]))
      ensures r.heap[qs[k]].next == (if k == |qs| - 1 then None else Some(qs[k + 1]))
    {
      DeletedNode(l, ps, i, k);
    }
    forall a, b | 0 <= a < b < |qs|
      ensures qs[a] != qs[b]
    {
    }
    if |qs| > 0 {
      assert qs[0] == ps[if i == 0 then 1 else 0];
      assert qs[|qs| - 1] == ps[if i == |ps| - 1 then |ps| - 2 else |ps| - 1];
    }
  }

  /** ... and the lines it holds are those of `LineStore.Delete`. */
  lemma DeleteKeepsLines(l: Links, ps: seq<Ptr>, i: nat)
    requires Represents(l, ps) && i < |ps|
    ensures (Neighbours(l, ps, i); DeleteRemoves(l, ps, i);
             LinesOf(DeleteNode(l, ps[i]), RemoveAt(ps, i)) == Delete(LinesOf(l, ps), i))
  {
    Neighbours(l, ps, i);
    DeleteRemoves(l, ps, i);
    var r := DeleteNode(l, ps[i]);
    var qs := RemoveAt(ps, i);
    forall k | 0 <= k < |qs|
      ensures LinesOf(r, qs)[k] == Delete(LinesOf(l, ps), i)[k]
    {
      DeletedNode(l, ps, i, k);
    }
  }

  /** `malloc` of a fresh node holding `line`, not yet linked. */
  function Allocate(l: Links, item: Ptr, line: Line): (r: Links)
    requires item !in l.heap
    ensures item in r.heap && r.heap[item].line == line
  {
    l.(heap := l.heap[item := Node(line, None, None)])
  }

  lemma AllocateKeeps(l: Links, ps: seq<Ptr>, item: Ptr, line: Line)
    requires Represents(l, ps) && item !in l.heap
    ensures Represents(Allocate(l, item, line), ps)
    ensures LinesOf(Allocate(l, item, line), ps) == LinesOf(l, ps)
    ensures item !in ps
  {
    var r := Allocate(l, item, line);
    forall k | 0 <= k < |ps|
      ensures ps[k] != item && r.heap[ps[k]] == l.heap[ps[k]]
    {
    }
    forall k | 0 <= k < |ps|
      ensures r.heap[ps[k]].prev == if k == 0 then None else Some(ps[k - 1])
      ensures r.heap[ps[k]].next == if k == |ps| - 1 then None else Some(ps[k + 1])
    {
      Neighbours(l, ps, k);
    }
    assert LinesOf(r, ps) == LinesOf(l, ps);
  }

  /** A hit: `delete` then `insert` of the matching node is `MoveToFront`. */
  lemma PromoteIsMoveToFront(l: Links, ps: seq<Ptr>, i: nat)
    requires Represents(l, ps) && i < |ps|
    ensures (Neighbours(l, ps, i); DeleteRemoves(l, ps, i);
             var r := InsertNode(DeleteNode(l, ps[i]), ps[i]);
             && Represents(r, [ps[i]] + RemoveAt(ps, i))
             && LinesOf(r, [ps[i]] + RemoveAt(ps, i)) == MoveToFront(LinesOf(l, ps), i))
  {
    Neighbours(l, ps, i);
    DeleteRemoves(l, ps, i);
    DeleteKeepsLines(l, ps, i);
    var qs := RemoveAt(ps, i);
    forall k | 0 <= k < |qs|
      ensures qs[k] != ps[i]
    {
      assert qs[k] == ps[if k < i then k else k + 1];
    }
    InsertPrepends(DeleteNode(l, ps[i]), qs, ps[i]);
  }

  /**
    A miss in a full set: `delete` of the tail, then `insert` of a freshly
    allocated node, is `DropTail` followed by `Insert`.
   */
  lemma EvictIsDropTail(l: Links, ps: seq<Ptr>, item: Ptr, line: Line)
    requires Represents(l, ps) && |ps| > 0 && item !in l.heap
    ensures (AllocateKeeps(l, ps, item, line);
             var a := Allocate(l, item, line);
             Neighbours(a, ps, |ps| - 1); DeleteRemoves(a, ps, |ps| - 1);
             var d := DeleteNode(a, ps[|ps| - 1]);
             var r := InsertNode(d, item);
             && a.tail == Some(ps[|ps| - 1])
             && Represents(r, [item] + RemoveAt(ps, |ps| - 1))
             && LinesOf(r, [item] + RemoveAt(ps, |ps| - 1)) == Insert(DropTail(LinesOf(l, ps)), line))
  {
    AllocateKeeps(l, ps, item, line);
    var a := Allocate(l, item, line);
    var i := |ps| - 1;
    Neighbours(a, ps, i);
    DeleteRemoves(a, ps, i);
    DeleteKeepsLines(a, ps, i);
    var d := DeleteNode(a, ps[i]);
    var qs := RemoveAt(ps, i);
    forall k | 0 <= k < |qs|
      ensures qs[k] == ps[k] && qs[k] != item
    {
    }
    DeleteEffect(a, ps[i]);
    InsertPrepends(d, qs, item);
  }

  /** A miss in a set with room: `insert` of a freshly allocated node is `Insert`. */
  lemma FillIsInsert(l: Links, ps: seq<Ptr>, item: Ptr, line: Line)
    requires Represents(l, ps) && item !in l.heap
    ensures (AllocateKeeps(l, ps, item, line);
             var r := InsertNode(Allocate(l, item, line), item);
             && Represents(r, [item] + ps)
             && LinesOf(r, [item] + ps) == Insert(LinesOf(l, ps), line))
  {
    AllocateKeeps(l, ps, item, line);
    InsertPrepends(Allocate(l, item, line), ps, item);
  }

  /**
    The lookup loop: walk `contents` nodes from the head and stop at the
    first whose tag matches. It finds the node that `Find` names.
   */
  method Lookup(l: Links, contents: nat, tag: nat, ghost ps: seq<Ptr>) returns (hit: Option<Ptr>)
    requires Represents(l, ps) && contents == |ps|
    ensures hit == match Find(LinesOf(l, ps), tag)
                   case None => None
                   case Some(k) => Some(ps[k])
  {
    ghost var lines := LinesOf(l, ps);
    var cur := l.head;
    var i := 0;
    while i < contents
      invariant 0 <= i <= contents
      invariant i < |ps| ==> cur == Some(ps[i])
      invariant forall j :: 0 <= j < i ==> lines[j].tag != tag
    {
      var p := cur.value;
      if l.heap[p].line.tag == tag {
        assert lines[i].tag == tag;
        return Some(p);
      }
      cur := l.heap[p].next;
      i := i + 1;
    }
    assert !Resident(lines, tag);
    return None;
  }
}
