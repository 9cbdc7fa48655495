/** The intrusive doubly linked list of cutils/list.h: the pointer operations on one ring. */
module Links {
  /** struct listnode. The links of a node that is in no list may be anything. */
  class Node {
    var next: Node?
    var prev: Node?
    constructor () { next, prev := null, null; }
  }

  /** s[i]; distinctness speaks of At so that proofs decide where it is used. */
  function At(s: seq<Node>, i: int): Node
    requires 0 <= i < |s|
  {
    s[i]
  }

  ghost predicate Distinct(s: seq<Node>) {
    forall i, j {:trigger At(s, i), At(s, j)} | 0 <= i < j < |s| :: At(s, i) != At(s, j)
  }

  lemma Differ(s: seq<Node>)
    requires Distinct(s)
    ensures forall i, j | 0 <= i < j < |s| :: s[i] != s[j]
  {
    forall i, j | 0 <= i < j < |s| ensures s[i] != s[j] {
      assert At(s, i) != At(s, j);
    }
  }

  /** The links of s[i] lead to its neighbours around the circle s. */
  ghost predicate Linked(s: seq<Node>, i: int)
    requires 0 <= i < |s|
    reads s
  {
    && s[i].next == s[if i + 1 < |s| then i + 1 else 0]
    && s[i].prev == s[if i > 0 then i - 1 else |s| - 1]
  }

  /** `s` is a circular list whose head is s[0]: next and prev lead around it in both directions. */
  ghost predicate Ring(s: seq<Node>)
    reads s
  {
    && s != []
    && Distinct(s)
    && forall i {:trigger Linked(s, i)} | 0 <= i < |s| :: Linked(s, i)
  }

  function RemoveAt<T>(s: seq<T>, k: nat): seq<T>
    requires k < |s|
  {
    s[..k] + s[k + 1..]
  }

  lemma DifferAt(s: seq<Node>, i: nat, j: nat)
    requires Distinct(s) && i < |s| && j < |s| && i != j
    ensures s[i] != s[j]
  {
    var a, b := if i < j then i else j, if i < j then j else i;
    assert At(s, a) != At(s, b);
  }

  lemma RemoveAtDistinct(s: seq<Node>, k: nat)
    requires Distinct(s) && k < |s|
    ensures Distinct(RemoveAt(s, k))
  {
    Differ(s);
  }

  lemma AppendDistinct(s: seq<Node>, x: Node)
    requires Distinct(s) && x !in s
    ensures Distinct(s + [x])
  {
    Differ(s);
  }

  lemma SecondDistinct(s: seq<Node>, x: Node)
    requires Distinct(s) && x !in s && s != []
    ensures Distinct([s[0], x] + s[1..])
  {
    Differ(s);
  }

  /** Any node of a ring can serve as its head. */
  lemma Rotate(s: seq<Node>, k: nat)
    requires Ring(s) && k < |s|
    ensures Ring(s[k..] + s[..k])
  {
    var r := s[k..] + s[..k];
    Differ(s);
    forall i | 0 <= i < |r| ensures Linked(r, i) {
      var j := if i + k < |s| then i + k else i + k - |s|;
      assert r[i] == s[j] && Linked(s, j);
    }
  }

  /** list_init. */
  method Init(node: Node)
    modifies node
    ensures Ring([node])
  {
    node.next := node;
    node.prev := node;
  }

  /** list_add_tail: the item becomes the last of the list. */
  method AddTail(head: Node, item: Node, ghost ring: seq<Node>)
    requires Ring(ring) && ring[0] == head && item !in ring
    modifies head, head.prev, item
    ensures Ring(ring + [item])
  {
    ghost var n := |ring|;
    assert Linked(ring, 0);
    item.next := head;
    item.prev := head.prev;
    head.prev.next := item;
    head.prev := item;
    ghost var r := ring + [item];
    forall i | 0 <= i <= n ensures Linked(r, i) {
      if i < n {
        assert old(Linked(ring, i));
        if i > 0 { DifferAt(ring, i, 0); }
        if i < n - 1 { DifferAt(ring, i, n - 1); }
      }
    }
    AppendDistinct(ring, item);
  }

  /** list_add_head: the item becomes the first of the list. */
  method AddHead(head: Node, item: Node, ghost ring: seq<Node>)
    requires Ring(ring) && ring[0] == head && item !in ring
    modifies head, head.next, item
    ensures Ring([head, item] + ring[1..])
  {
    ghost var n, second := |ring|, if |ring| > 1 then 1 else 0;
    assert Linked(ring, 0);
    item.next := head.next;
    item.prev := head;
    head.next.prev := item;
    head.next := item;
    ghost var r := [head, item] + ring[1..];
    forall i | 0 <= i <= n ensures Linked(r, i) {
      if i != 1 {
        ghost var j := if i == 0 then 0 else i - 1;
        assert r[i] == ring[j] && old(Linked(ring, j));
        if j > 0 { DifferAt(ring, j, 0); }
        if j != second { DifferAt(ring, j, second); }
      }
    }
    SecondDistinct(ring, item);
  }

  /** list_remove: the other nodes close up; the item keeps its own links. */
  method Remove(item: Node, ghost ring: seq<Node>, ghost k: nat)
    requires Ring(ring) && k < |ring| && ring[k] == item
    modifies item.next, item.prev
    ensures |ring| > 1 ==> Ring(RemoveAt(ring, k))
    ensures item.next == old(item.next) && item.prev == old(item.prev)
  {
    ghost var n, p := if k + 1 < |ring| then k + 1 else 0, if k > 0 then k - 1 else |ring| - 1;
    assert Linked(ring, k);
    item.next.prev := item.prev;
    item.prev.next := item.next;
    if |ring| > 1 {
      DifferAt(ring, n, k);
      DifferAt(ring, p, k);
      RemoveAtDistinct(ring, k);
      forall i | 0 <= i < |ring| - 1 ensures Linked(RemoveAt(ring, k), i) {
        ghost var j := if i < k then i else i + 1;
        assert RemoveAt(ring, k)[i] == ring[j] && old(Linked(ring, j));
        if j != n { DifferAt(ring, j, n); }
        if j != p { DifferAt(ring, j, p); }
      }
    }
  }
}
