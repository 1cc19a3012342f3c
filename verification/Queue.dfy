/**
 The intrusive doubly linked list of inc/queue.h.

 An element is the index of a structure with embedded links.  le_next is a
 pointer to a structure; le_prev is a pointer to the pointer that designates the
 structure, so it is either the list head or the le_next of another element.
 The link fields of all structures live in two arrays: elements that are on no
 list keep whatever links they have.
 */
module Queue {

  datatype Link = Null | Elem(i: nat)
  datatype Cell = NoCell | Head | NextOf(i: nat)

  // From first, the le_next links run through q in order and end, and each
  // le_prev designates the cell that holds its element.
  ghost predicate Chain(first: Link, next: seq<Link>, prev: seq<Cell>, q: seq<nat>) {
    && |next| == |prev|
    && (forall i :: 0 <= i < |q| ==> q[i] < |next|)
    && (forall i, j :: 0 <= i < j < |q| ==> q[i] != q[j])
    && first == (if q == [] then Null else Elem(q[0]))
    && (forall i {:trigger next[q[i]]} :: 0 <= i < |q| ==> next[q[i]] == if i + 1 < |q| then Elem(q[i + 1]) else Null)
    && (forall i {:trigger prev[q[i]]} :: 0 <= i < |q| ==> prev[q[i]] == if i == 0 then Head else NextOf(q[i - 1]))
  }

  // Links outside q and apart from e are as before.
  ghost predicate OthersSame(next: seq<Link>, prev: seq<Cell>, next': seq<Link>, prev': seq<Cell>, q: seq<nat>, e: nat) {
    && |next'| == |next| && |prev'| == |prev|
    && (forall i: nat :: i < |next| && i !in q && i != e ==> next'[i] == next[i])
    && (forall i: nat :: i < |prev| && i !in q && i != e ==> prev'[i] == prev[i])
  }

  // The contents of the cell that designates position k, and the cell itself.
  function LinkAt(q: seq<nat>, k: nat): Link { if k < |q| then Elem(q[k]) else Null }

  function CellAt(q: seq<nat>, k: nat): Cell
    requires k <= |q|
  {
    if k == 0 then Head else NextOf(q[k - 1])
  }

  function Inserted(q: seq<nat>, k: nat, e: nat): seq<nat>
    requires k <= |q|
  {
    q[..k] + [e] + q[k..]
  }

  function Removed(q: seq<nat>, k: nat): seq<nat>
    requires k < |q|
  {
    q[..k] + q[k + 1..]
  }

  // Splicing e in between positions k - 1 and k: at most four cells change.
  ghost predicate Spliced(next: seq<Link>, prev: seq<Cell>, q: seq<nat>, k: nat, e: nat, next': seq<Link>, prev': seq<Cell>)
    requires k <= |q|
  {
    && |next'| == |prev'| == |next| == |prev| && e < |next|
    && (forall i: nat :: i < |next| ==>
          next'[i] == if i == e then LinkAt(q, k) else if k > 0 && i == q[k - 1] then Elem(e) else next[i])
    && (forall i: nat :: i < |prev| ==>
          prev'[i] == if i == e then CellAt(q, k) else if k < |q| && i == q[k] then NextOf(e) else prev[i])
  }

  lemma SplicedAt(first: Link, next: seq<Link>, prev: seq<Cell>, q: seq<nat>, k: nat, e: nat,
                  next': seq<Link>, prev': seq<Cell>, j: nat)
    requires Chain(first, next, prev, q) && k <= |q| && e !in q && Spliced(next, prev, q, k, e, next', prev')
    requires j < |q|
    ensures q[j] != e
    ensures next'[q[j]] == if j + 1 == k then Elem(e) else LinkAt(q, j + 1)
    ensures prev'[q[j]] == if j == k then NextOf(e) else CellAt(q, j)
  {
    assert prev[q[j]] == CellAt(q, j) && next[q[j]] == LinkAt(q, j + 1);
    assert k > 0 && j != k - 1 ==> q[j] != q[k - 1];
    assert k < |q| && j != k ==> q[j] != q[k];
  }

  lemma InsertedAt(q: seq<nat>, k: nat, e: nat, i: nat)
    requires k <= |q| && i <= |q|
    ensures |Inserted(q, k, e)| == |q| + 1
    ensures Inserted(q, k, e)[i] == if i < k then q[i] else if i == k then e else q[i - 1]
  {
  }

  lemma InsertedDistinct(q: seq<nat>, k: nat, e: nat)
    requires k <= |q| && e !in q && forall i, j :: 0 <= i < j < |q| ==> q[i] != q[j]
    ensures forall i, j :: 0 <= i < j < |Inserted(q, k, e)| ==> Inserted(q, k, e)[i] != Inserted(q, k, e)[j]
  {
    forall i, j | 0 <= i < j < |Inserted(q, k, e)| ensures Inserted(q, k, e)[i] != Inserted(q, k, e)[j] {
      InsertedAt(q, k, e, i);
      InsertedAt(q, k, e, j);
    }
  }

  lemma ChainInsert(first: Link, next: seq<Link>, prev: seq<Cell>, q: seq<nat>, k: nat, e: nat,
                    first': Link, next': seq<Link>, prev': seq<Cell>)
    requires Chain(first, next, prev, q) && k <= |q| && e !in q && Spliced(next, prev, q, k, e, next', prev')
    requires first' == if k == 0 then Elem(e) else first
    ensures Chain(first', next', prev', Inserted(q, k, e))
    ensures OthersSame(next, prev, next', prev', q, e)
  {
    var q' := Inserted(q, k, e);
    forall i | 0 <= i < |q'|
      ensures q'[i] < |next'| && next'[q'[i]] == LinkAt(q', i + 1) && prev'[q'[i]] == CellAt(q', i)
    {
      InsertedAt(q, k, e, i);
      if i < |q| { InsertedAt(q, k, e, i + 1); }
      if i > 0 { InsertedAt(q, k, e, i - 1); }
      if i != k { SplicedAt(first, next, prev, q, k, e, next', prev', if i < k then i else i - 1); }
    }
    InsertedDistinct(q, k, e);
    InsertedAt(q, k, e, 0);
  }

  // Closing the gap that position k leaves.  The removed element keeps its links.
  ghost predicate Unlinked(next: seq<Link>, prev: seq<Cell>, q: seq<nat>, k: nat, next': seq<Link>, prev': seq<Cell>)
    requires k < |q|
  {
    && |next'| == |prev'| == |next| == |prev|
    && (forall i: nat :: i < |next| ==>
          next'[i] == if k > 0 && i == q[k - 1] then LinkAt(q, k + 1) else next[i])
    && (forall i: nat :: i < |prev| ==>
          prev'[i] == if k + 1 < |q| && i == q[k + 1] then CellAt(q, k) else prev[i])
  }

  lemma UnlinkedAt(first: Link, next: seq<Link>, prev: seq<Cell>, q: seq<nat>, k: nat,
                   next': seq<Link>, prev': seq<Cell>, j: nat)
    requires Chain(first, next, prev, q) && k < |q| && Unlinked(next, prev, q, k, next', prev')
    requires j < |q| && j != k
    ensures next'[q[j]] == LinkAt(q, if j + 1 == k then k + 1 else j + 1)
    ensures prev'[q[j]] == CellAt(q, if j == k + 1 then k else j)
  {
    assert prev[q[j]] == CellAt(q, j) && next[q[j]] == LinkAt(q, j + 1);
    assert k > 0 && j != k - 1 ==> q[j] != q[k - 1];
    assert k + 1 < |q| && j != k + 1 ==> q[j] != q[k + 1];
  }

  lemma ChainRemove(first: Link, next: seq<Link>, prev: seq<Cell>, q: seq<nat>, k: nat,
                    first': Link, next': seq<Link>, prev': seq<Cell>)
    requires Chain(first, next, prev, q) && k < |q| && Unlinked(next, prev, q, k, next', prev')
    requires first' == if k == 0 then LinkAt(q, 1) else first
    ensures Chain(first', next', prev', Removed(q, k))
    ensures OthersSame(next, prev, next', prev', q, q[k])
  {
    var q' := Removed(q, k);
    forall i | 0 <= i < |q'|
      ensures q'[i] < |next'| && next'[q'[i]] == LinkAt(q', i + 1) && prev'[q'[i]] == CellAt(q', i)
    {
      var j := if i < k then i else i + 1;
      assert q'[i] == q[j];
      UnlinkedAt(first, next, prev, q, k, next', prev', j);
    }
    RemovedDistinct(q, k);
  }

  lemma RemovedDistinct(q: seq<nat>, k: nat)
    requires k < |q| && forall i, j :: 0 <= i < j < |q| ==> q[i] != q[j]
    ensures forall i, j :: 0 <= i < j < |Removed(q, k)| ==> Removed(q, k)[i] != Removed(q, k)[j]
    ensures forall x :: x in Removed(q, k) <==> x in q && x != q[k]
  {
    forall x | x in q && x != q[k] ensures x in Removed(q, k) {
      var i :| 0 <= i < |q| && q[i] == x;
      assert Removed(q, k)[if i < k then i else i - 1] == x;
    }
  }

  // A list only depends on the links of its own elements.
  lemma ChainFrame(first: Link, next: seq<Link>, prev: seq<Cell>, q: seq<nat>, next': seq<Link>, prev': seq<Cell>)
    requires Chain(first, next, prev, q)
    requires |next'| == |prev'| == |next|
    requires forall x: nat :: x < |next| && x in q ==> next'[x] == next[x] && prev'[x] == prev[x]
    ensures Chain(first, next', prev', q)
  {
    forall i | 0 <= i < |q| ensures next'[q[i]] == next[q[i]] && prev'[q[i]] == prev[q[i]] {
      assert q[i] in q;
    }
  }

  class List {
    var first: Link  // lh_first
    const next: array<Link>  // le_next of each structure
    const prev: array<Cell>  // le_prev of each structure
    ghost var contents: seq<nat>

    ghost predicate Valid()
      reads this, next, prev
    {
      Chain(first, next[..], prev[..], contents)
    }

    constructor (n: nat)
      ensures Valid() && contents == []
      ensures fresh(next) && fresh(prev) && next.Length == prev.Length == n
    {
      next := new Link[n](_ => Null);
      prev := new Cell[n](_ => NoCell);
      first := Null;
      contents := [];
    }

    // LIST_INIT
    method Init()
      requires next.Length == prev.Length
      modifies this
      ensures Valid() && contents == []
    {
      first := Null;
      contents := [];
    }

    // The links of the element at position k.
    lemma LinksAt(k: nat)
      requires Valid() && k < |contents|
      ensures contents[k] < next.Length == prev.Length
      ensures next[contents[k]] == LinkAt(contents, k + 1)
      ensures prev[contents[k]] == CellAt(contents, k)
      ensures k + 1 < |contents| ==> contents[k + 1] < next.Length
      ensures k > 0 ==> contents[k - 1] < next.Length
    {
      assert next[..][contents[k]] == next[contents[k]];
      assert prev[..][contents[k]] == prev[contents[k]];
    }

    // LIST_INSERT_HEAD
    method InsertHead(e: nat)
      requires Valid() && e < next.Length && e !in contents
      modifies this, next, prev
      ensures Valid() && contents == [e] + old(contents)
      ensures OthersSame(old(next[..]), old(prev[..]), next[..], prev[..], old(contents), e)
    {
      if contents != [] { LinksAt(0); }
      next[e] := first;
      if next[e] != Null {
        prev[first.i] := NextOf(e);
      }
      first := Elem(e);
      prev[e] := Head;
      ChainInsert(old(first), old(next[..]), old(prev[..]), contents, 0, e, first, next[..], prev[..]);
      assert Inserted(contents, 0, e) == [e] + contents;
      contents := [e] + contents;
    }

    // LIST_INSERT_AFTER
    method InsertAfter(le: nat, e: nat, ghost k: nat)
      requires Valid() && k < |contents| && contents[k] == le && e < next.Length && e !in contents
      modifies this, next, prev
      ensures Valid() && contents == Inserted(old(contents), k + 1, e)
      ensures OthersSame(old(next[..]), old(prev[..]), next[..], prev[..], old(contents), e)
    {
      LinksAt(k);
      next[e] := next[le];
      if next[e] != Null {
        prev[next[le].i] := NextOf(e);
      }
      next[le] := Elem(e);
      prev[e] := NextOf(le);
      ChainInsert(old(first), old(next[..]), old(prev[..]), contents, k + 1, e, first, next[..], prev[..]);
      contents := Inserted(contents, k + 1, e);
    }

    // *cell = l
    method Assign(cell: Cell, l: Link)
      requires cell != NoCell && (cell.NextOf? ==> cell.i < next.Length)
      modifies this`first, next
      ensures first == if cell.Head? then l else old(first)
      ensures next[..] == if cell.NextOf? then old(next[..])[cell.i := l] else old(next[..])
    {
      match cell
      case Head => first := l;
      case NextOf(i) => next[i] := l;
    }

    // LIST_INSERT_BEFORE
    method InsertBefore(le: nat, e: nat, ghost k: nat)
      requires Valid() && k < |contents| && contents[k] == le && e < next.Length && e !in contents
      modifies this, next, prev
      ensures Valid() && contents == Inserted(old(contents), k, e)
      ensures OthersSame(old(next[..]), old(prev[..]), next[..], prev[..], old(contents), e)
    {
      LinksAt(k);
      prev[e] := prev[le];
      next[e] := Elem(le);
      Assign(prev[le], Elem(e));
      prev[le] := NextOf(e);
      ChainInsert(old(first), old(next[..]), old(prev[..]), contents, k, e, first, next[..], prev[..]);
      contents := Inserted(contents, k, e);
    }

    // LIST_REMOVE of an arbitrary element, without a traversal.
    method Remove(e: nat, ghost k: nat)
      requires Valid() && k < |contents| && contents[k] == e
      modifies this, next, prev
      ensures Valid() && contents == Removed(old(contents), k)
      ensures OthersSame(old(next[..]), old(prev[..]), next[..], prev[..], old(contents), e)
    {
      LinksAt(k);
      if next[e] != Null {
        prev[next[e].i] := prev[e];
      }
      Assign(prev[e], next[e]);
      ChainRemove(old(first), old(next[..]), old(prev[..]), contents, k, first, next[..], prev[..]);
      contents := Removed(contents, k);
    }

    // LIST_FOREACH with a counter.
    method Length() returns (cnt: nat)
      requires Valid()
      ensures cnt == |contents|
    {
      cnt := 0;
      var p := first;
      while p != Null
        invariant cnt <= |contents|
        invariant p == LinkAt(contents, cnt)
        decreases |contents| - cnt
      {
        LinksAt(cnt);
        cnt := cnt + 1;
        p := next[p.i];
      }
    }
  }
}
