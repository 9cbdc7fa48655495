/** The loop macros of cutils/list.h, with bodies that change the list under them, and undoing. */
module Traversal {
  import opened Links

  /** list_for_each with a body that leaves the list alone: visits the items in order, each once. */
  method ForEach(head: Node, ghost ring: seq<Node>) returns (visited: seq<Node>)
    requires Ring(ring) && ring[0] == head
    ensures visited == ring[1..]
  {
    visited := [];
    assert Linked(ring, 0);
    var node := head.next;
    ghost var i := 1;
    while node != head
      invariant 1 <= i <= |ring| && visited == ring[1..i]
      invariant node == ring[if i < |ring| then i else 0]
      decreases |ring| - i
    {
      visited := visited + [node];
      assert Linked(ring, i);
      node := node.next;
      i := i + 1;
    }
    if i < |ring| { DifferAt(ring, 0, i); }
  }

  function Reverse<T>(s: seq<T>): (r: seq<T>)
    ensures |r| == |s| && forall k | 0 <= k < |s| :: r[k] == s[|s| - 1 - k]
  {
    if s == [] then [] else Reverse(s[1..]) + [s[0]]
  }

  /** list_for_each_reverse. */
  method ForEachReverse(head: Node, ghost ring: seq<Node>) returns (visited: seq<Node>)
    requires Ring(ring) && ring[0] == head
    ensures visited == Reverse(ring[1..])
  {
    visited := [];
    assert Linked(ring, 0);
    var node := head.prev;
    ghost var i := |ring|;
    while node != head
      invariant 1 <= i <= |ring| && |visited| == |ring| - i
      invariant forall k | 0 <= k < |visited| :: visited[k] == ring[|ring| - 1 - k]
      invariant node == ring[i - 1]
      decreases i
    {
      visited := visited + [node];
      assert Linked(ring, i - 1);
      node := node.prev;
      i := i - 1;
    }
    if i > 1 { DifferAt(ring, 0, i - 1); }
  }

  function Select(s: seq<Node>, want: Node -> bool): seq<Node> {
    if s == [] then [] else Select(s[..|s| - 1], want) + if want(s[|s| - 1]) then [s[|s| - 1]] else []
  }

  /** node->next, in a ring. */
  method Next(node: Node, ghost now: seq<Node>, ghost k: nat) returns (n: Node)
    requires Ring(now) && k < |now| && now[k] == node
    ensures n == now[if k + 1 < |now| then k + 1 else 0]
  {
    assert Linked(now, k);
    n := node.next;
  }

  // A loop over `ring` in which the nodes not satisfying `stay` leave the list, about to visit ring[i].

  function Kept(ring: seq<Node>, stay: Node -> bool, i: nat): seq<Node>
    requires 1 <= i <= |ring|
  {
    [ring[0]] + Select(ring[1..i], stay)
  }

  function Now(ring: seq<Node>, stay: Node -> bool, i: nat): seq<Node>
    requires 1 <= i <= |ring|
  {
    Kept(ring, stay, i) + ring[i..]
  }

  lemma SelectAppend(front: seq<Node>, s: seq<Node>, x: Node, want: Node -> bool)
    ensures front + Select(s + [x], want) ==
            if want(x) then front + Select(s, want) + [x] else front + Select(s, want)
  {
    assert (s + [x])[..|s|] == s;
  }

  lemma NowStep(ring: seq<Node>, stay: Node -> bool, i: nat)
    requires 1 <= i < |ring|
    ensures var now, k, rest := Now(ring, stay, i), |Kept(ring, stay, i)|, Now(ring, stay, i + 1);
            && k < |now| && now[k] == ring[i]
            && now[if k + 1 < |now| then k + 1 else 0] == ring[if i + 1 < |ring| then i + 1 else 0]
            && rest == (if stay(ring[i]) then now else RemoveAt(now, k))
            && rest[if i + 1 < |ring| then |Kept(ring, stay, i + 1)| else 0] ==
               ring[if i + 1 < |ring| then i + 1 else 0]
  {
    var kept, x, tail := Kept(ring, stay, i), ring[i], ring[i + 1..];
    assert ring[1..i + 1] == ring[1..i] + [x];
    SelectAppend([ring[0]], ring[1..i], x, stay);
    assert ring[i..] == [x] + tail;
    Middle(kept, x, tail);
  }

  lemma Middle(a: seq<Node>, x: Node, b: seq<Node>)
    ensures a + ([x] + b) == a + [x] + b
    ensures RemoveAt(a + ([x] + b), |a|) == a + b
    ensures b != [] ==> (a + ([x] + b))[|a| + 1] == b[0] && (a + b)[|a|] == b[0]
  {
  }

  lemma NowBounds(ring: seq<Node>, stay: Node -> bool)
    requires ring != []
    ensures Now(ring, stay, 1) == ring
    ensures Now(ring, stay, |ring|) == [ring[0]] + Select(ring[1..], stay)
  {
    assert ring[1..1] == [] && [ring[0]] + ring[1..] == ring;
    assert ring[1..|ring|] == ring[1..] && ring[|ring|..] == [];
  }

  lemma {:induction false} SelectWithin(s: seq<Node>, want: Node -> bool)
    ensures forall k | 0 <= k < |Select(s, want)| :: Select(s, want)[k] in s
  {
    if s == [] {
    } else {
      SelectWithin(s[..|s| - 1], want);
    }
  }

  lemma NowWithin(ring: seq<Node>, stay: Node -> bool, i: nat)
    requires 1 <= i <= |ring|
    ensures forall k | 0 <= k < |Now(ring, stay, i)| :: Now(ring, stay, i)[k] in ring
  {
    SelectWithin(ring[1..i], stay);
  }

  /** One pass: a body that removes the current node or not, and the step to node->next. */
  method RemoveAndStep(node: Node, stay: Node -> bool, ghost ring: seq<Node>, ghost i: nat) returns (n: Node)
    requires 1 <= i < |ring| && ring[i] == node && Ring(Now(ring, stay, i))
    modifies ring
    ensures Ring(Now(ring, stay, i + 1))
    ensures n == ring[if i + 1 < |ring| then i + 1 else 0]
  {
    ghost var now, k := Now(ring, stay, i), |Kept(ring, stay, i)|;
    NowStep(ring, stay, i);
    NowWithin(ring, stay, i);
    assert Linked(now, k);
    if !stay(node) { Remove(node, now, k); }
    n := node.next;
  }

  /** list_for_each with a body that only calls list_remove on some of the nodes it is given: every
      item is still visited once, in order, because a removed node keeps its own links. */
  method ForEachRemoving(head: Node, stay: Node -> bool, ghost ring: seq<Node>) returns (visited: seq<Node>)
    requires Ring(ring) && ring[0] == head
    modifies ring
    ensures visited == ring[1..]
    ensures Ring([head] + Select(ring[1..], stay))
  {
    visited := [];
    var node := Next(head, ring, 0);
    ghost var i := 1;
    NowBounds(ring, stay);
    while node != head
      invariant 1 <= i <= |ring| && visited == ring[1..i]
      invariant Ring(Now(ring, stay, i))
      invariant node == ring[if i < |ring| then i else 0]
      decreases |ring| - i
    {
      visited := visited + [node];
      node := RemoveAndStep(node, stay, ring, i);
      i := i + 1;
    }
    if i < |ring| { DifferAt(ring, 0, i); }
  }

  /** What the body of a list_for_each_safe loop does with the current node: leave it; remove it and
      overwrite its links with anything; or remove it and add it to the tail or the head of another
      list. */
  datatype Fate = Leave | Destroy(next: Node?, prev: Node?) | ToTail | ToHead

  function Stays(fate: Node -> Fate): Node -> bool { (x: Node) => fate(x).Leave? }
  function Dies(fate: Node -> Fate): Node -> bool { (x: Node) => fate(x).Destroy? }
  function Appended(fate: Node -> Fate): Node -> bool { (x: Node) => fate(x).ToTail? }
  function Prepended(fate: Node -> Fate): Node -> bool { (x: Node) => fate(x).ToHead? }

  /** The other list with one more node, if it goes there. */
  function Receive(dest: seq<Node>, x: Node, f: Fate): (r: seq<Node>)
    requires dest != []
    ensures r != [] && r[0] == dest[0]
  {
    match f
    case ToTail => dest + [x]
    case ToHead => [dest[0], x] + dest[1..]
    case _ => dest
  }

  /** A list with `front` before its first item and `back` after its last. */
  function Around(dest: seq<Node>, front: seq<Node>, back: seq<Node>): (r: seq<Node>)
    requires dest != []
    ensures r != [] && r[0] == dest[0]
  {
    [dest[0]] + front + dest[1..] + back
  }

  lemma AroundGrows(dest: seq<Node>, front: seq<Node>, back: seq<Node>, x: Node)
    requires dest != []
    ensures Around(dest, [x] + front, back) == Receive(Around(dest, front, back), x, ToHead)
    ensures Around(dest, front, back + [x]) == Receive(Around(dest, front, back), x, ToTail)
  {
  }

  lemma AroundNodes(dest: seq<Node>, front: seq<Node>, back: seq<Node>)
    requires dest != []
    ensures multiset(Around(dest, front, back)) == multiset(dest) + multiset(front) + multiset(back)
  {
    assert dest == [dest[0]] + dest[1..];
  }

  /** The other list once the nodes before ring[i] have been visited: those sent to its tail follow in
      order, those sent to its head stand in front in reverse. */
  function Grown(dest: seq<Node>, ring: seq<Node>, fate: Node -> Fate, i: nat): (r: seq<Node>)
    requires 1 <= i <= |ring| && dest != []
    ensures r != [] && r[0] == dest[0]
  {
    Around(dest, Reverse(Select(ring[1..i], Prepended(fate))), Select(ring[1..i], Appended(fate)))
  }

  lemma ReverseAppend(s: seq<Node>, x: Node)
    ensures Reverse(s + [x]) == [x] + Reverse(s)
  {
  }

  lemma SelectLast(s: seq<Node>, x: Node, want: Node -> bool)
    ensures Select(s + [x], want) == Select(s, want) + if want(x) then [x] else []
  {
    assert (s + [x])[..|s|] == s;
  }

  lemma GrownStep(dest: seq<Node>, ring: seq<Node>, fate: Node -> Fate, i: nat)
    requires 1 <= i < |ring| && dest != []
    ensures Grown(dest, ring, fate, i + 1) == Receive(Grown(dest, ring, fate, i), ring[i], fate(ring[i]))
  {
    var s, x := ring[1..i], ring[i];
    var front, back := Select(s, Prepended(fate)), Select(s, Appended(fate));
    assert ring[1..i + 1] == s + [x];
    SelectLast(s, x, Prepended(fate));
    SelectLast(s, x, Appended(fate));
    AroundGrows(dest, Reverse(front), back, x);
    ReverseAppend(front, x);
    assert front + [] == front && back + [] == back;
  }

  /** The node just visited, when it was sent to the other list, is now the last or the first item there,
      and everything else is as it was. */
  lemma MovedLandsAtTheEnd(dest: seq<Node>, ring: seq<Node>, fate: Node -> Fate, i: nat)
    requires 1 <= i < |ring| && dest != []
    ensures var before, after := Grown(dest, ring, fate, i), Grown(dest, ring, fate, i + 1);
            match fate(ring[i])
            case ToTail => after == before + [ring[i]]
            case ToHead => after == [dest[0], ring[i]] + before[1..]
            case _ => after == before
    ensures Grown(dest, ring, fate, 1) == dest
  {
    GrownStep(dest, ring, fate, i);
    assert ring[1..1] == [];
  }

  /** The nodes left are those to be left. */
  lemma {:induction false} SelectIsFilter(s: seq<Node>, want: Node -> bool, x: Node)
    ensures x in Select(s, want) <==> x in s && want(x)
    ensures |Select(s, want)| <= |s|
  {
    if s == [] {
    } else {
      SelectIsFilter(s[..|s| - 1], want, x);
      assert s == s[..|s| - 1] + [s[|s| - 1]];
    }
  }

  lemma GrownWithin(dest: seq<Node>, ring: seq<Node>, fate: Node -> Fate, i: nat)
    requires 1 <= i <= |ring| && dest != []
    ensures forall k | 0 <= k < |Grown(dest, ring, fate, i)| ::
              Grown(dest, ring, fate, i)[k] in dest || Grown(dest, ring, fate, i)[k] in ring
  {
    SelectWithin(ring[1..i], Appended(fate));
    SelectWithin(ring[1..i], Prepended(fate));
    var front := Reverse(Select(ring[1..i], Prepended(fate)));
    assert forall k | 0 <= k < |front| :: front[k] in ring;
  }

  /** The list itself after the loop. */
  function Left(ring: seq<Node>, fate: Node -> Fate): seq<Node>
    requires ring != []
  {
    [ring[0]] + Select(ring[1..], Stays(fate))
  }

  lemma {:induction false} ReverseKeeps(s: seq<Node>)
    ensures multiset(Reverse(s)) == multiset(s)
  {
    if s == [] {
    } else {
      ReverseKeeps(s[1..]);
      assert s == [s[0]] + s[1..];
    }
  }

  /** Every node has exactly one of the four fates. */
  lemma {:induction false} FatesPartition(s: seq<Node>, fate: Node -> Fate)
    ensures multiset(Select(s, Stays(fate))) + multiset(Select(s, Appended(fate))) +
            multiset(Select(s, Prepended(fate))) + multiset(Select(s, Dies(fate))) == multiset(s)
  {
    if s == [] {
    } else {
      var front, x := s[..|s| - 1], s[|s| - 1];
      assert s == front + [x];
      FatesPartition(front, fate);
    }
  }

  /** The nodes of both lists before the loop, and of both lists and the destroyed ones after it. */
  lemma NodesConserved(ring: seq<Node>, dest: seq<Node>, fate: Node -> Fate)
    requires ring != [] && dest != []
    ensures multiset(Left(ring, fate)) + multiset(Grown(dest, ring, fate, |ring|)) +
            multiset(Select(ring[1..], Dies(fate))) == multiset(ring) + multiset(dest)
  {
    var s := ring[1..];
    assert ring[1..|ring|] == s && ring == [ring[0]] + s;
    FatesPartition(s, fate);
    ReverseKeeps(Select(s, Prepended(fate)));
    AroundNodes(dest, Reverse(Select(s, Prepended(fate))), Select(s, Appended(fate)));
  }

  ghost predicate Apart(r: seq<Node>, s: seq<Node>) {
    forall i, j {:trigger At(r, i), At(s, j)} | 0 <= i < |r| && 0 <= j < |s| :: At(r, i) != At(s, j)
  }

  lemma Separate(r: seq<Node>, s: seq<Node>)
    requires Apart(r, s)
    ensures forall i, j | 0 <= i < |r| && 0 <= j < |s| :: r[i] != s[j]
  {
    forall i, j | 0 <= i < |r| && 0 <= j < |s| ensures r[i] != s[j] {
      assert At(r, i) != At(s, j);
    }
  }

  lemma BodyFacts(now: seq<Node>, k: nat, dest: seq<Node>, f: Fate)
    requires Distinct(now) && k < |now| && Apart(now, dest) && dest != []
    ensures var rest := RemoveAt(now, k);
            && now[k] !in rest && now[k] !in dest
            && (forall x | x in rest :: x in now && x !in dest)
            && Apart(rest, dest) && Apart(rest, Receive(dest, now[k], f))
  {
    Separate(now, dest);
    Differ(now);
  }

  method Body(node: Node, f: Fate, other: Node, ghost now: seq<Node>, ghost k: nat, ghost dest: seq<Node>)
    requires Ring(now) && 1 <= k < |now| && now[k] == node
    requires Ring(dest) && dest[0] == other && Apart(now, dest)
    modifies now, dest
    ensures Ring(if f.Leave? then now else RemoveAt(now, k))
    ensures Ring(Receive(dest, node, f))
    ensures Apart(if f.Leave? then now else RemoveAt(now, k), Receive(dest, node, f))
  {
    if !f.Leave? {
      BodyFacts(now, k, dest, f);
      ghost var n := if k + 1 < |now| then k + 1 else 0;
      DifferAt(now, k, n);
      assert Linked(now, k);
      Separate(now, dest);
      Remove(node, now, k);
      if !f.Destroy? { assert Linked(dest, 0); }
      match f {
        case ToTail => AddTail(other, node, dest);
        case ToHead => AddHead(other, node, dest);
        case Destroy(next, prev) => node.next, node.prev := next, prev;
        case Leave =>
      }
    }
  }

  /** Once the nodes before ring[i] have been visited, both lists are rings and share no node. */
  ghost predicate ListsAfter(ring: seq<Node>, dest: seq<Node>, fate: Node -> Fate, i: nat)
    requires 1 <= i <= |ring| && dest != []
    reads Now(ring, Stays(fate), i), Grown(dest, ring, fate, i)
  {
    && Ring(Now(ring, Stays(fate), i)) && Ring(Grown(dest, ring, fate, i))
    && Apart(Now(ring, Stays(fate), i), Grown(dest, ring, fate, i))
  }

  /** The body, on the node to be visited. */
  method SafeBody(node: Node, other: Node, fate: Node -> Fate,
                  ghost ring: seq<Node>, ghost dest: seq<Node>, ghost i: nat)
    requires 1 <= i < |ring| && ring[i] == node
    requires dest != [] && dest[0] == other
    requires ListsAfter(ring, dest, fate, i)
    modifies ring, dest
    ensures ListsAfter(ring, dest, fate, i + 1)
  {
    NowStep(ring, Stays(fate), i);
    NowWithin(ring, Stays(fate), i);
    GrownStep(dest, ring, fate, i);
    GrownWithin(dest, ring, fate, i);
    Body(node, fate(node), other, Now(ring, Stays(fate), i), |Kept(ring, Stays(fate), i)|, Grown(dest, ring, fate, i));
  }

  /** Where the node to be visited next stands in the list, and what follows it. */
  lemma Slot(ring: seq<Node>, stay: Node -> bool, i: nat) returns (k: nat)
    requires 1 <= i <= |ring|
    ensures var now := Now(ring, stay, i);
            && k < |now| && now[k] == ring[if i < |ring| then i else 0]
            && (i < |ring| ==> now[if k + 1 < |now| then k + 1 else 0] == ring[if i + 1 < |ring| then i + 1 else 0])
  {
    k := if i < |ring| then |Kept(ring, stay, i)| else 0;
    if i < |ring| { NowStep(ring, stay, i); }
  }

  /** One pass: the body, then node = n and n = node->next. */
  method SafePass(node: Node, n: Node, other: Node, fate: Node -> Fate,
                  ghost ring: seq<Node>, ghost dest: seq<Node>, ghost i: nat)
    returns (n': Node)
    requires 1 <= i < |ring| && ring[i] == node && n == ring[if i + 1 < |ring| then i + 1 else 0]
    requires dest != [] && dest[0] == other
    requires ListsAfter(ring, dest, fate, i)
    modifies ring, dest
    ensures ListsAfter(ring, dest, fate, i + 1)
    ensures i + 1 < |ring| ==> n' == ring[if i + 2 < |ring| then i + 2 else 0]
  {
    SafeBody(node, other, fate, ring, dest, i);
    ghost var k := Slot(ring, Stays(fate), i + 1);
    assert Linked(Now(ring, Stays(fate), i + 1), k);
    n' := n.next;
  }

  /** The loop of list_for_each_safe: the next node is read before the body runs. */
  method SafeLoop(head: Node, other: Node, fate: Node -> Fate, ghost ring: seq<Node>, ghost dest: seq<Node>)
    returns (visited: seq<Node>)
    requires Ring(ring) && ring[0] == head
    requires Ring(dest) && dest[0] == other && Apart(ring, dest)
    modifies ring, dest
    ensures visited == ring[1..]
    ensures ListsAfter(ring, dest, fate, |ring|)
  {
    visited := [];
    NowBounds(ring, Stays(fate));
    assert ring[1..1] == [] && Grown(dest, ring, fate, 1) == dest;
    var node := Next(head, ring, 0);
    var n := Next(node, ring, if |ring| > 1 then 1 else 0);
    ghost var i := 1;
    while node != head
      invariant 1 <= i <= |ring| && visited == ring[1..i]
      invariant ListsAfter(ring, dest, fate, i)
      invariant node == ring[if i < |ring| then i else 0]
      invariant i < |ring| ==> n == ring[if i + 1 < |ring| then i + 1 else 0]
      decreases |ring| - i
    {
      visited := visited + [node];
      var n' := SafePass(node, n, other, fate, ring, dest, i);
      node, n, i := n, n', i + 1;
    }
    if i < |ring| { DifferAt(ring, 0, i); }
  }

  /** list_for_each_safe: whatever the body does with the current node, the loop ends after visiting
      every initial item exactly once in order. The nodes left and the nodes moved end up in their
      lists as the body asked, and no node is lost or in two places. */
  method ForEachSafe(head: Node, other: Node, fate: Node -> Fate, ghost ring: seq<Node>, ghost dest: seq<Node>)
    returns (visited: seq<Node>)
    requires Ring(ring) && ring[0] == head
    requires Ring(dest) && dest[0] == other && Apart(ring, dest)
    modifies ring, dest
    ensures visited == ring[1..]
    ensures Ring(Left(ring, fate)) && Ring(Grown(dest, ring, fate, |ring|))
    ensures Apart(Left(ring, fate), Grown(dest, ring, fate, |ring|))
    ensures multiset(Left(ring, fate)) + multiset(Grown(dest, ring, fate, |ring|)) +
            multiset(Select(ring[1..], Dies(fate))) == multiset(ring) + multiset(dest)
  {
    visited := SafeLoop(head, other, fate, ring, dest);
    NowBounds(ring, Stays(fate));
    NodesConserved(ring, dest, fate);
  }

  /** list_remove undoes list_add_tail before any node of a ring: every other node has exactly the
      links it had. (list_add_tail on the head is appending.) */
  method AddTailThenRemove(at: Node, item: Node, ghost ring: seq<Node>, ghost k: nat)
    requires Ring(ring) && k < |ring| && ring[k] == at && item !in ring
    modifies ring, item
    ensures forall x | x in ring :: x.next == old(x.next) && x.prev == old(x.prev)
  {
    assert Linked(ring, k);
    Rotate(ring, k);
    ghost var turned := ring[k..] + ring[..k];
    AddTail(at, item, turned);
    ghost var longer := turned + [item];
    assert longer[|turned|] == item && Linked(longer, |turned|);
    Remove(item, longer, |turned|);
    assert RemoveAt(longer, |turned|) == turned;
    SameLinks(turned);
  }

  /** The links of a ring are determined by its order. */
  twostate lemma SameLinks(r: seq<Node>)
    requires old(Ring(r))
    requires Ring(r)
    ensures forall x | x in r :: x.next == old(x.next) && x.prev == old(x.prev)
  {
    forall x | x in r ensures x.next == old(x.next) && x.prev == old(x.prev) {
      var i :| 0 <= i < |r| && r[i] == x;
      assert old(Linked(r, i)) && Linked(r, i);
    }
  }

  /** list_remove undoes list_add_head after any node of a ring. */
  method AddHeadThenRemove(at: Node, item: Node, ghost ring: seq<Node>, ghost k: nat)
    requires Ring(ring) && k < |ring| && ring[k] == at && item !in ring
    modifies ring, item
    ensures forall x | x in ring :: x.next == old(x.next) && x.prev == old(x.prev)
  {
    Rotate(ring, k);
    ghost var turned := ring[k..] + ring[..k];
    assert Linked(turned, 0);
    AddHead(at, item, turned);
    ghost var longer := [at, item] + turned[1..];
    assert longer[1] == item && Linked(longer, 1);
    Remove(item, longer, 1);
    assert RemoveAt(longer, 1) == turned;
    SameLinks(turned);
  }
}
