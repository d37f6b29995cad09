/**
 rtservice.h: the intrusive circular list. A list is its head node together with the nodes linked to
 it; the ghost sequence `ring` names them in order, head first, so the members are ring[1..].
 */
module RtList {
  class Node {
    var next: Node
    var prev: Node

    /** rt_list_init */
    constructor ()
      ensures Ring([this])
    {
      next, prev := this, this;
    }
  }

  predicate Distinct(ring: seq<Node>) { forall i, j :: 0 <= i < j < |ring| ==> ring[i] != ring[j] }

  /** Entry i is linked to the entries around it. */
  ghost predicate LinkedAt(ring: seq<Node>, i: nat)
    requires i < |ring|
    reads ring
  {
    && ring[i].next == ring[if i + 1 < |ring| then i + 1 else 0]
    && ring[i].prev == ring[if i > 0 then i - 1 else |ring| - 1]
  }

  ghost predicate Ring(ring: seq<Node>)
    reads ring
  {
    ring != [] && Distinct(ring) && forall i {:trigger LinkedAt(ring, i)} :: 0 <= i < |ring| ==> LinkedAt(ring, i)
  }

  function Added(ring: seq<Node>, i: nat, n: Node): seq<Node>
    requires i < |ring|
  {
    ring[..i + 1] + [n] + ring[i + 1..]
  }

  function Without(ring: seq<Node>, i: nat): seq<Node>
    requires i < |ring|
  {
    ring[..i] + ring[i + 1..]
  }

  lemma AddedIndex(ring: seq<Node>, i: nat, n: Node)
    requires i < |ring|
    ensures |Added(ring, i, n)| == |ring| + 1
    ensures forall j {:trigger Added(ring, i, n)[j]} :: 0 <= j <= |ring| ==>
      Added(ring, i, n)[j] == if j <= i then ring[j] else if j == i + 1 then n else ring[j - 1]
    ensures Distinct(ring) && n !in ring ==> Distinct(Added(ring, i, n))
  {
  }

  lemma WithoutIndex(ring: seq<Node>, i: nat)
    requires i < |ring|
    ensures |Without(ring, i)| == |ring| - 1
    ensures forall j {:trigger Without(ring, i)[j]} :: 0 <= j < |ring| - 1 ==>
      Without(ring, i)[j] == if j < i then ring[j] else ring[j + 1]
    ensures Distinct(ring) ==> Distinct(Without(ring, i)) && ring[i] !in Without(ring, i)
  {
  }

  /** Adding an entry and taking it out again restores the list, wherever it was put. */
  lemma AddedWithout(ring: seq<Node>, i: nat, n: Node)
    requires i < |ring|
    ensures Without(Added(ring, i, n), i + 1) == ring
  {
  }

  /** rt_list_insert_after: n becomes the entry behind l; behind the head means first. */
  method InsertAfter(l: Node, n: Node, ghost ring: seq<Node>, ghost i: nat)
    requires Ring(ring) && i < |ring| && ring[i] == l && n !in ring
    modifies ring, n
    ensures Ring(Added(ring, i, n))
  {
    assert LinkedAt(ring, i);
    ghost var hi := if i + 1 < |ring| then i + 1 else 0;
    assert LinkedAt(ring, hi);
    l.next.prev := n;
    n.next := l.next;
    l.next := n;
    n.prev := l;
    AddedIndex(ring, i, n);
    ghost var q := Added(ring, i, n);
    hide Added;
    forall j | 0 <= j < |q|
      ensures LinkedAt(q, j)
    {
      if j != i + 1 {
        ghost var k := if j <= i then j else j - 1;
        assert old(LinkedAt(ring, k));
      }
    }
  }

  /** rt_list_insert_before: n becomes the entry before l; before the head means last. */
  method InsertBefore(l: Node, n: Node, ghost ring: seq<Node>, ghost i: nat)
    requires Ring(ring) && i < |ring| && ring[i] == l && n !in ring
    modifies ring, n
    ensures Ring(Added(ring, if i > 0 then i - 1 else |ring| - 1, n))
    ensures i == 0 ==> Ring(ring + [n])
  {
    assert LinkedAt(ring, i);
    ghost var lo: nat := if i > 0 then i - 1 else |ring| - 1;
    assert LinkedAt(ring, lo);
    l.prev.next := n;
    n.prev := l.prev;
    l.prev := n;
    n.next := l;
    AddedIndex(ring, lo, n);
    ghost var q := Added(ring, lo, n);
    assert i == 0 ==> q == ring + [n];
    hide Added;
    forall j | 0 <= j < |q|
      ensures LinkedAt(q, j)
    {
      if j != lo + 1 {
        ghost var k := if j <= lo then j else j - 1;
        assert old(LinkedAt(ring, k));
      }
    }
  }

  /** rt_list_remove: the others stay linked in order, and n is a list of its own again. */
  method Remove(n: Node, ghost ring: seq<Node>, ghost i: nat)
    requires Ring(ring) && i < |ring| && ring[i] == n
    modifies ring
    ensures Ring([n]) && (|ring| > 1 ==> Ring(Without(ring, i)))
  {
    assert LinkedAt(ring, i);
    ghost var lo: nat, hi: nat := if i > 0 then i - 1 else |ring| - 1, if i + 1 < |ring| then i + 1 else 0;
    assert LinkedAt(ring, lo) && LinkedAt(ring, hi);
    n.next.prev := n.prev;
    n.prev.next := n.next;
    n.next, n.prev := n, n;
    WithoutIndex(ring, i);
    ghost var q := Without(ring, i);
    hide Without;
    forall j | 0 <= j < |q|
      ensures LinkedAt(q, j)
    {
      ghost var k := if j < i then j else j + 1;
      assert old(LinkedAt(ring, k));
    }
  }

  /** rt_list_isempty */
  method IsEmpty(l: Node, ghost ring: seq<Node>) returns (b: bool)
    requires Ring(ring) && ring[0] == l
    ensures b <==> ring == [l]
  {
    assert LinkedAt(ring, 0);
    b := l.next == l;
  }

  /** Inserting a node and removing it again leaves every link of the list as it was, wherever it was put. */
  method InsertAndRemove(l: Node, n: Node, ghost ring: seq<Node>, ghost i: nat)
    requires Ring(ring) && i < |ring| && ring[i] == l && n !in ring
    modifies ring, n
    ensures Ring(ring) && Ring([n])
    ensures forall x :: x in ring ==> x.next == old(x.next) && x.prev == old(x.prev)
  {
    hide Ring, LinkedAt, Distinct, Added, Without;
    AddedMembers(ring, i, n);
    AddedWithout(ring, i, n);
    InsertAfter(l, n, ring, i);
    ghost var q := Added(ring, i, n);
    assert forall k :: 0 <= k < |q| ==> q[k] in ring || q[k] == n;
    Remove(n, q, i + 1);
    SameLinks(ring);
  }

  lemma AddedMembers(ring: seq<Node>, i: nat, n: Node)
    requires i < |ring|
    ensures forall k {:trigger Added(ring, i, n)[k]} :: 0 <= k <= |ring| ==>
        Added(ring, i, n)[k] in ring || Added(ring, i, n)[k] == n
    ensures |Added(ring, i, n)| == |ring| + 1 && Added(ring, i, n)[i + 1] == n
  {
  }

  /** The order of a list determines its links. */
  twostate lemma SameLinks(ring: seq<Node>)
    requires old(Ring(ring)) && Ring(ring)
    ensures forall x :: x in ring ==> x.next == old(x.next) && x.prev == old(x.prev)
  {
    forall x | x in ring
      ensures x.next == old(x.next) && x.prev == old(x.prev)
    {
      var k: nat :| k < |ring| && ring[k] == x;
      assert LinkedAt(ring, k) && old(LinkedAt(ring, k));
    }
  }
}
