/** Several disjoint lists at once, and any sequence of list operations on them. */
module Rings {
  import opened Links

  type Model = seq<seq<Node>>   // each ring with its head first

  ghost function Nodes(m: Model): set<Node> {
    set i, j | 0 <= i < |m| && 0 <= j < |m[i]| :: m[i][j]
  }

  ghost predicate Disjoint(m: Model) {
    forall i, j, a, b | 0 <= i < j < |m| && 0 <= a < |m[i]| && 0 <= b < |m[j]| :: m[i][a] != m[j][b]
  }

  ghost predicate Valid(m: Model)
    reads Nodes(m)
  {
    && Disjoint(m)
    && forall i | 0 <= i < |m| :: Ring(m[i])
  }

  datatype Op =
    | Init(node: Node)
    | AddTail(at: Node, item: Node)
    | AddHead(at: Node, item: Node)
    | Remove(item: Node)

  function Without<T(==)>(s: seq<T>, x: T): seq<T> {
    if s == [] then [] else if s[0] == x then s[1..] else [s[0]] + Without(s[1..], x)
  }

  function IndexOf<T(==)>(s: seq<T>, x: T): (k: nat)
    requires x in s
    ensures k < |s| && s[k] == x
  {
    if s[0] == x then 0 else 1 + IndexOf(s[1..], x)
  }

  function InsertAt<T>(s: seq<T>, k: nat, x: T): seq<T>
    requires k <= |s|
  {
    s[..k] + [x] + s[k..]
  }

  /** The lists without the empty list that `x` is the head of, if it is: a node that is about to be
      added somewhere may have been list_init'ed before. */
  ghost function Freed(m: Model, x: Node): Model {
    Without(m, [x])
  }

  /** What the caller of each operation owes: list_init is for nodes in no list and for the heads of
      empty lists; the add functions take any node of any list to add beside, head or item, and a node
      that is in no list with others; list_remove takes any node of any list. */
  ghost predicate Legal(m: Model, op: Op) {
    match op
    case Init(n) => n !in Nodes(m) || [n] in m
    case AddTail(h, x) => h in Nodes(Freed(m, x)) && x !in Nodes(Freed(m, x))
    case AddHead(h, x) => h in Nodes(Freed(m, x)) && x !in Nodes(Freed(m, x))
    case Remove(x) => x in Nodes(m)
  }

  /** The effect on one list. Before its head is the end of a list; a node alone cannot be unlinked. */
  ghost function OnRing(r: seq<Node>, op: Op): seq<Node> {
    match op
    case Init(_) => r
    case AddTail(h, x) => if h in r then InsertAt(r, if r[0] == h then |r| else IndexOf(r, h), x) else r
    case AddHead(h, x) => if h in r then InsertAt(r, IndexOf(r, h) + 1, x) else r
    case Remove(x) => if |r| > 1 then Without(r, x) else r
  }

  ghost function OnRings(m: Model, op: Op): Model {
    seq(|m|, i requires 0 <= i < |m| => OnRing(m[i], op))
  }

  /** The effect on all lists. */
  ghost function Apply(m: Model, op: Op): Model {
    match op
    case Init(n) => if [n] in m then m else m + [[n]]
    case Remove(_) => OnRings(m, op)
    case _ => OnRings(Freed(m, op.item), op)
  }

  ghost predicate AllLegal(m: Model, ops: seq<Op>)
    decreases |ops|
  {
    ops == [] || (Legal(m, ops[0]) && AllLegal(Apply(m, ops[0]), ops[1..]))
  }

  ghost function ApplyAll(m: Model, ops: seq<Op>): Model
    decreases |ops|
  {
    if ops == [] then m else ApplyAll(Apply(m, ops[0]), ops[1..])
  }

  ghost function Touched(ops: seq<Op>): set<Node> {
    if ops == [] then {}
    else (match ops[0]
          case Init(n) => {n}
          case AddTail(_, x) => {x}
          case AddHead(_, x) => {x}
          case Remove(_) => {}) + Touched(ops[1..])
  }

  lemma {:induction false} WithoutAt<T>(s: seq<T>, k: nat)
    requires k < |s| && forall i | 0 <= i < k :: s[i] != s[k]
    ensures Without(s, s[k]) == RemoveAt(s, k)
  {
    if k == 0 {
    } else {
      WithoutAt(s[1..], k - 1);
      assert RemoveAt(s, k) == [s[0]] + RemoveAt(s[1..], k - 1);
    }
  }

  lemma {:induction false} WithoutAbsent<T>(s: seq<T>, x: T)
    requires x !in s
    ensures Without(s, x) == s
  {
    if s == [] {
    } else {
      WithoutAbsent(s[1..], x);
    }
  }

  lemma IndexOfAt(s: seq<Node>, k: nat)
    requires Distinct(s) && k < |s|
    ensures IndexOf(s, s[k]) == k
  {
    if IndexOf(s, s[k]) != k { DifferAt(s, IndexOf(s, s[k]), k); }
  }

  /** The node an operation looks for: the one to remove, or the one to add beside. */
  function Place(op: Op): Node
    requires !op.Init?
  {
    if op.Remove? then op.item else op.at
  }

  /** The operation changes the one list it is about and leaves every other list as it is. */
  lemma OneRingChanges(m: Model, op: Op, i: nat, k: nat)
    requires Disjoint(m) && i < |m| && k < |m[i]| && !op.Init? && Place(op) == m[i][k]
    requires Distinct(m[i])
    ensures OnRings(m, op) == m[i := OnRing(m[i], op)]
    ensures op.Remove? && |m[i]| > 1 ==> OnRing(m[i], op) == RemoveAt(m[i], k)
    ensures op.AddTail? ==> OnRing(m[i], op) == InsertAt(m[i], if k == 0 then |m[i]| else k, op.item)
    ensures op.AddHead? ==> OnRing(m[i], op) == InsertAt(m[i], k + 1, op.item)
  {
    Differ(m[i]);
    IndexOfAt(m[i], k);
    forall j | 0 <= j < |m| && j != i ensures OnRing(m[j], op) == m[j] {
      assert Place(op) !in m[j];
      if op.Remove? { WithoutAbsent(m[j], op.item); }
    }
    if op.Remove? { WithoutAt(m[i], k); }
  }

  /** Freeing a node drops at most one list, which held nothing else. */
  lemma FreedIs(m: Model, x: Node) returns (i: nat)
    requires Disjoint(m)
    ensures if [x] in m then i < |m| && m[i] == [x] && Freed(m, x) == RemoveAt(m, i) else Freed(m, x) == m
    ensures Disjoint(Freed(m, x)) && forall r | r in Freed(m, x) :: r in m
  {
    if [x] in m {
      i :| 0 <= i < |m| && m[i] == [x];
      forall j | 0 <= j < i ensures m[j] != m[i] {
        assert m[j] != [] ==> m[j][0] != m[i][0];
      }
      WithoutAt(m, i);
    } else {
      i := 0;
      WithoutAbsent(m, [x]);
    }
  }

  lemma StillDisjoint(m: Model, i: nat, r: seq<Node>, x: Node)
    requires Disjoint(m) && i < |m|
    requires forall n | n in r :: n in m[i] || (n == x && x !in Nodes(m))
    ensures Disjoint(m[i := r])
  {
    var m' := m[i := r];
    forall j, k, a, b | 0 <= j < k < |m'| && 0 <= a < |m'[j]| && 0 <= b < |m'[k]|
      ensures m'[j][a] != m'[k][b]
    {
      assert m'[j][a] in m'[j] && m'[k][b] in m'[k];
      if j == i && m'[j][a] in m[i] { var c :| 0 <= c < |m[i]| && m[i][c] == m'[j][a]; assert m[j][c] != m[k][b]; }
      else if k == i && m'[k][b] in m[i] { var c :| 0 <= c < |m[i]| && m[i][c] == m'[k][b]; assert m[j][a] != m[k][c]; }
      else if j == i { assert m[k][b] in Nodes(m); }
      else if k == i { assert m[j][a] in Nodes(m); }
    }
  }

  /** The nodes of the other rings are none of those a call about ring i and x may write. */
  lemma OtherNodes(m: Model, i: nat, x: Node)
    requires Disjoint(m) && i < |m| && (x in m[i] || x !in Nodes(m))
    ensures forall j, b | 0 <= j < |m| && j != i && 0 <= b < |m[j]| :: m[j][b] !in m[i] && m[j][b] != x
  {
    forall j, b | 0 <= j < |m| && j != i && 0 <= b < |m[j]| ensures m[j][b] !in m[i] && m[j][b] != x {
      assert m[j][b] in Nodes(m);
    }
  }

  /** A call that turned ring i into `r` keeps all rings. */
  lemma ReplaceRing(m: Model, i: nat, r: seq<Node>, x: Node)
    requires Disjoint(m) && i < |m| && Ring(r)
    requires forall n | n in r :: n in m[i] || (n == x && x !in Nodes(m))
    requires forall j | 0 <= j < |m| && j != i :: Ring(m[j])
    ensures Valid(m[i := r])
  {
    StillDisjoint(m, i, r, x);
  }

  lemma RemoveAtSubset(s: seq<Node>, k: nat)
    requires k < |s|
    ensures forall n | n in RemoveAt(s, k) :: n in s
  {
  }

  method DoInit(n: Node, ghost m: Model)
    requires Valid(m) && Legal(m, Init(n))
    modifies n
    ensures Valid(Apply(m, Init(n)))
  {
    if [n] in m {
      ghost var k :| 0 <= k < |m| && m[k] == [n];
      OtherNodes(m, k, n);
    }
    assert forall i, b | 0 <= i < |m| && 0 <= b < |m[i]| :: m[i][b] in Nodes(m);
    Links.Init(n);
  }

  method DoAddTail(h: Node, x: Node, ghost m: Model)
    requires Valid(m) && h in Nodes(m) && x !in Nodes(m)
    modifies Nodes(m), x
    ensures Valid(OnRings(m, AddTail(h, x)))
  {
    ghost var i, k :| 0 <= i < |m| && 0 <= k < |m[i]| && m[i][k] == h;
    ghost var r := m[i];
    assert Linked(r, k);
    OtherNodes(m, i, x);
    Rotate(r, k);
    Links.AddTail(h, x, r[k..] + r[..k]);
    OneRingChanges(m, AddTail(h, x), i, k);
    RotateBack(r, k, x);
    ReplaceRing(m, i, OnRing(r, AddTail(h, x)), x);
  }

  method DoAddHead(h: Node, x: Node, ghost m: Model)
    requires Valid(m) && h in Nodes(m) && x !in Nodes(m)
    modifies Nodes(m), x
    ensures Valid(OnRings(m, AddHead(h, x)))
  {
    ghost var i, k :| 0 <= i < |m| && 0 <= k < |m[i]| && m[i][k] == h;
    ghost var r := m[i];
    assert Linked(r, k);
    OtherNodes(m, i, x);
    Rotate(r, k);
    Links.AddHead(h, x, r[k..] + r[..k]);
    OneRingChanges(m, AddHead(h, x), i, k);
    RotateBackHead(r, k, x);
    ReplaceRing(m, i, OnRing(r, AddHead(h, x)), x);
  }

  lemma RotateBack(r: seq<Node>, k: nat, x: Node)
    requires k < |r| && Ring(r[k..] + r[..k] + [x])
    ensures Ring(InsertAt(r, if k == 0 then |r| else k, x))
  {
    var t := r[k..] + r[..k] + [x];
    if k == 0 {
      assert InsertAt(r, |r|, x) == t;
    } else {
      Rotate(t, |r| - k);
      assert InsertAt(r, k, x) == t[|r| - k..] + t[..|r| - k];
    }
  }

  lemma RotateBackHead(r: seq<Node>, k: nat, x: Node)
    requires k < |r| && var t := r[k..] + r[..k]; Ring([t[0], x] + t[1..])
    ensures Ring(InsertAt(r, k + 1, x))
  {
    var t := r[k..] + r[..k];
    var u := [t[0], x] + t[1..];
    if k == 0 {
      assert InsertAt(r, 1, x) == u;
    } else {
      Rotate(u, |r| - k + 1);
      assert InsertAt(r, k + 1, x) == u[|r| - k + 1..] + u[..|r| - k + 1];
    }
  }

  method DoRemove(x: Node, ghost m: Model)
    requires Valid(m) && Legal(m, Remove(x))
    modifies Nodes(m)
    ensures Valid(Apply(m, Remove(x)))
  {
    ghost var i, k :| 0 <= i < |m| && 0 <= k < |m[i]| && m[i][k] == x;
    assert Linked(m[i], k);
    OtherNodes(m, i, x);
    Links.Remove(x, m[i], k);
    OneRingChanges(m, Remove(x), i, k);
    RemoveAtSubset(m[i], k);
    if |m[i]| > 1 {
      ReplaceRing(m, i, RemoveAt(m[i], k), x);
    } else {
      assert m[i := m[i]] == m;
    }
  }

  lemma {:induction false} WithoutSubset<T>(s: seq<T>, x: T)
    ensures forall y | y in Without(s, x) :: y in s
  {
    if s == [] {
    } else if s[0] != x {
      WithoutSubset(s[1..], x);
    }
  }

  lemma FreedNodes(m: Model, x: Node)
    ensures Nodes(Freed(m, x)) <= Nodes(m)
  {
    var f := Freed(m, x);
    WithoutSubset(m, [x]);
    forall i, j | 0 <= i < |f| && 0 <= j < |f[i]| ensures f[i][j] in Nodes(m) {
      assert f[i] in m;
    }
  }

  lemma FreedValid(m: Model, x: Node)
    requires Valid(m)
    ensures Valid(Freed(m, x)) && Nodes(Freed(m, x)) <= Nodes(m)
  {
    var _ := FreedIs(m, x);
    FreedNodes(m, x);
  }

  /** The two ways to add, once the node to be added is free. */
  method DoAdd(op: Op, ghost m: Model)
    requires op.AddTail? || op.AddHead?
    requires Valid(m) && Legal(m, op)
    modifies Nodes(m), op.item
    ensures Valid(Apply(m, op))
  {
    ghost var free := Freed(m, op.item);
    FreedValid(m, op.item);
    if op.AddTail? {
      DoAddTail(op.at, op.item, free);
    } else {
      DoAddHead(op.at, op.item, free);
    }
  }

  /** Executes one call. */
  method Do(op: Op, ghost m: Model)
    requires Valid(m) && Legal(m, op)
    modifies Nodes(m), Touched([op])
    ensures Valid(Apply(m, op))
  {
    match op
    case Init(n) => DoInit(n, m);
    case Remove(x) => DoRemove(x, m);
    case _ => DoAdd(op, m);
  }

  lemma OnRingSubset(r: seq<Node>, op: Op)
    ensures forall n | n in OnRing(r, op) :: n in r || n in Touched([op])
  {
    if op.Remove? { WithoutSubset(r, op.item); }
  }

  lemma OnRingsNodes(m: Model, op: Op)
    ensures Nodes(OnRings(m, op)) <= Nodes(m) + Touched([op])
  {
    var m' := OnRings(m, op);
    forall i, j | 0 <= i < |m'| && 0 <= j < |m'[i]| ensures m'[i][j] in Nodes(m) + Touched([op]) {
      OnRingSubset(m[i], op);
      assert m'[i][j] in OnRing(m[i], op);
    }
  }

  lemma NodesAfter(m: Model, op: Op)
    ensures Nodes(Apply(m, op)) <= Nodes(m) + Touched([op])
  {
    match op
    case Init(_) =>
    case Remove(_) => OnRingsNodes(m, op);
    case _ =>
      FreedNodes(m, op.item);
      OnRingsNodes(Freed(m, op.item), op);
  }

  /** Any sequence of list_init, list_add_tail, list_add_head and list_remove calls that respects the
      callers' duties keeps every list a well-formed ring, disjoint from the others, and its contents
      are those of the sequence model. */
  method RunAll(ops: seq<Op>, ghost m: Model)
    requires Valid(m) && AllLegal(m, ops)
    modifies Nodes(m), Touched(ops)
    ensures Valid(ApplyAll(m, ops))
  {
    if ops != [] {
      NodesAfter(m, ops[0]);
      assert Touched([ops[0]]) <= Touched(ops);
      Do(ops[0], m);
      RunAll(ops[1..], Apply(m, ops[0]));
    }
  }

  // ---- Properties of the sequence model ----

  /** The lists with `x` forgotten: an empty list it was the head of is gone. */
  ghost function Stripped(m: Model, x: Node): Model {
    seq(|Freed(m, x)|, i requires 0 <= i < |Freed(m, x)| => Without(Freed(m, x)[i], x))
  }

  ghost predicate WellFormed(m: Model) {
    Disjoint(m) && forall i | 0 <= i < |m| :: m[i] != [] && Distinct(m[i])
  }

  /** In the circle `r`, `x` comes just before `h`. */
  predicate JustBefore(r: seq<Node>, x: Node, h: Node) {
    exists k :: 0 <= k < |r| && r[k] == h && r[if k > 0 then k - 1 else |r| - 1] == x
  }

  lemma Absent(m: Model, i: nat, k: nat)
    requires WellFormed(m) && i < |m| && k < |m[i]|
    ensures m[i][k] !in Nodes(m[i := RemoveAt(m[i], k)])
  {
    var m1 := m[i := RemoveAt(m[i], k)];
    Differ(m[i]);
    forall a, b | 0 <= a < |m1| && 0 <= b < |m1[a]| ensures m1[a][b] != m[i][k] {
      if a == i { assert m1[a][b] == m[i][if b < k then b else b + 1]; }
    }
  }

  lemma FreedOfOther(m: Model, x: Node)
    requires x !in Nodes(m)
    ensures Freed(m, x) == m
  {
    forall j | 0 <= j < |m| ensures m[j] != [x] {
      assert m[j] != [] ==> m[j][0] in Nodes(m);
    }
    WithoutAbsent(m, [x]);
  }

  lemma NotAlone(m: Model, i: nat, k: nat)
    requires WellFormed(m) && i < |m| && k < |m[i]| && |m[i]| > 1
    ensures [m[i][k]] !in m && Freed(m, m[i][k]) == m
  {
    forall j | 0 <= j < |m| ensures m[j] != [m[i][k]] {
      assert j != i ==> m[j][0] != m[i][k];
    }
    WithoutAbsent(m, [m[i][k]]);
  }

  /** A node removed from among others. */
  lemma RemovedFromList(m: Model, i: nat, k: nat)
    requires WellFormed(m) && i < |m| && k < |m[i]| && |m[i]| > 1
    ensures var x, m1 := m[i][k], m[i := RemoveAt(m[i], k)];
            Apply(m, Remove(x)) == Freed(m1, x) == m1 == Stripped(m, x) && Freed(m, x) == m
  {
    var x, m1 := m[i][k], m[i := RemoveAt(m[i], k)];
    OneRingChanges(m, Remove(x), i, k);
    Absent(m, i, k);
    FreedOfOther(m1, x);
    NotAlone(m, i, k);
    Differ(m[i]);
    forall j | 0 <= j < |m| ensures Without(m[j], x) == m1[j] {
      if j == i { WithoutAt(m[i], k); }
      else { assert x !in m[j]; WithoutAbsent(m[j], x); }
    }
  }

  /** Removing the head of an empty list changes nothing; freeing it drops that list. */
  lemma RemovedAlone(m: Model, i: nat)
    requires WellFormed(m) && i < |m| && |m[i]| == 1
    ensures var x := m[i][0]; Apply(m, Remove(x)) == m && Freed(m, x) == Stripped(m, x) == RemoveAt(m, i)
  {
    var x := m[i][0];
    OneRingChanges(m, Remove(x), i, 0);
    assert m[i] == [x];
    assert m[i := m[i]] == m;
    var i' := FreedIs(m, x);
    assert m[i'][0] == x;
    forall j | 0 <= j < |m| && j != i ensures Without(m[j], x) == m[j] {
      assert x !in m[j];
      WithoutAbsent(m[j], x);
    }
  }

  lemma NodesWithout(m: Model, i: nat, k: nat)
    requires i < |m| && k < |m[i]|
    ensures var m1 := m[i := RemoveAt(m[i], k)]; Nodes(m1) <= Nodes(m) <= Nodes(m1) + {m[i][k]}
  {
    var m1 := m[i := RemoveAt(m[i], k)];
    forall a, b | 0 <= a < |m1| && 0 <= b < |m1[a]| ensures m1[a][b] in Nodes(m) {
      assert m1[a][b] == m[a][if a == i && b >= k then b + 1 else b];
    }
    forall a, b | 0 <= a < |m| && 0 <= b < |m[a]| && m[a][b] != m[i][k] ensures m[a][b] in Nodes(m1) {
      assert m[a][b] == m1[a][if a == i && b > k then b - 1 else b];
    }
  }

  lemma NodesWithoutRing(m: Model, i: nat)
    requires WellFormed(m) && i < |m| && |m[i]| == 1
    ensures var m1 := RemoveAt(m, i); WellFormed(m1) && Nodes(m1) == Nodes(m) - {m[i][0]}
  {
    var m1 := RemoveAt(m, i);
    forall a, b | 0 <= a < |m| && 0 <= b < |m[a]| && m[a][b] != m[i][0] ensures m[a][b] in Nodes(m1) {
      assert m[a][b] == m1[if a < i then a else a - 1][b];
    }
    forall a, b | 0 <= a < |m1| && 0 <= b < |m1[a]| ensures m1[a][b] in Nodes(m) - {m[i][0]} {
      assert m1[a][b] == m[if a < i then a else a + 1][b];
    }
  }

  lemma WellFormedWithout(m: Model, i: nat, k: nat)
    requires WellFormed(m) && i < |m| && k < |m[i]| && |m[i]| > 1
    ensures WellFormed(m[i := RemoveAt(m[i], k)])
  {
    RemoveAtDistinct(m[i], k);
    StillDisjoint(m, i, RemoveAt(m[i], k), m[i][k]);
  }

  /** Removing x and freeing it leaves exactly the lists with x forgotten. */
  lemma RemoveThenFree(m: Model, x: Node)
    requires WellFormed(m) && x in Nodes(m)
    ensures var base := Freed(Apply(m, Remove(x)), x);
            base == Stripped(m, x) && WellFormed(base) && Nodes(base) == Nodes(m) - {x}
  {
    var i, k :| 0 <= i < |m| && 0 <= k < |m[i]| && m[i][k] == x;
    if |m[i]| > 1 {
      RemovedFromList(m, i, k);
      WellFormedWithout(m, i, k);
      Absent(m, i, k);
      NodesWithout(m, i, k);
    } else {
      RemovedAlone(m, i);
      NodesWithoutRing(m, i);
    }
  }

  lemma {:induction false} WithoutInsert<T>(s: seq<T>, k: nat, x: T)
    requires k <= |s| && x !in s
    ensures Without(InsertAt(s, k, x), x) == s
  {
    if k == 0 {
      assert InsertAt(s, k, x)[1..] == s;
    } else {
      WithoutInsert(s[1..], k - 1, x);
      assert InsertAt(s, k, x)[1..] == InsertAt(s[1..], k - 1, x);
    }
  }

  /** Where a node inserted at p of ring i went, and that it can be forgotten again. */
  lemma InsertThenForget(m: Model, i: nat, p: nat, x: Node)
    requires WellFormed(m) && i < |m| && p <= |m[i]| && x !in Nodes(m)
    ensures var m' := m[i := InsertAt(m[i], p, x)];
            Stripped(m', x) == m && Nodes(m') == Nodes(m) + {x}
  {
    var m' := m[i := InsertAt(m[i], p, x)];
    forall j | 0 <= j < |m| ensures x !in m[j] && m'[j] != [x] && Without(m'[j], x) == m[j] {
      assert forall b | 0 <= b < |m[j]| :: m[j][b] in Nodes(m);
      if j == i { WithoutInsert(m[i], p, x); } else { WithoutAbsent(m[j], x); }
    }
    WithoutAbsent(m', [x]);
    assert RemoveAt(m'[i], p) == m[i] && m'[i := RemoveAt(m'[i], p)] == m;
    NodesWithout(m', i, p);
    assert m'[i][p] in Nodes(m');
  }

  /** In the circle `r`, `x` comes just after `h`. */
  predicate JustAfter(r: seq<Node>, x: Node, h: Node) {
    exists k :: 0 <= k < |r| && r[k] == h && r[if k + 1 < |r| then k + 1 else 0] == x
  }

  lemma InsertedAfter(s: seq<Node>, k: nat, x: Node)
    requires k < |s|
    ensures JustAfter(InsertAt(s, k + 1, x), x, s[k])
  {
    var r := InsertAt(s, k + 1, x);
    assert r[k] == s[k] && r[if k + 1 < |r| then k + 1 else 0] == x;
  }

  lemma InsertedBefore(s: seq<Node>, k: nat, x: Node)
    requires k < |s|
    ensures JustBefore(InsertAt(s, if k == 0 then |s| else k, x), x, s[k])
  {
    var r, q := InsertAt(s, if k == 0 then |s| else k, x), if k == 0 then 0 else k + 1;
    assert r[q] == s[k] && r[if q > 0 then q - 1 else |r| - 1] == x;
  }

  /** Adding a free node before h: forgetting it again gives back the lists. */
  lemma AddThenForget(m: Model, x: Node, h: Node)
    requires WellFormed(m) && h in Nodes(m) && x !in Nodes(m)
    ensures var m' := OnRings(m, AddTail(h, x));
            && Stripped(m', x) == m && Nodes(m') == Nodes(m) + {x}
            && exists i :: 0 <= i < |m'| && JustBefore(m'[i], x, h)
  {
    var i, k :| 0 <= i < |m| && 0 <= k < |m[i]| && m[i][k] == h;
    var p := if k == 0 then |m[i]| else k;
    OneRingChanges(m, AddTail(h, x), i, k);
    InsertThenForget(m, i, p, x);
    InsertedBefore(m[i], k, x);
    assert JustBefore(OnRings(m, AddTail(h, x))[i], x, h);
  }

  lemma AddHeadAt(m: Model, i: nat, k: nat, x: Node)
    requires WellFormed(m) && i < |m| && k < |m[i]| && x !in Nodes(m)
    ensures var m' := OnRings(m, AddHead(m[i][k], x));
            && m' == m[i := InsertAt(m[i], k + 1, x)]
            && Stripped(m', x) == m && Nodes(m') == Nodes(m) + {x}
  {
    OneRingChanges(m, AddHead(m[i][k], x), i, k);
    InsertThenForget(m, i, k + 1, x);
  }

  /** The same, after h. */
  lemma AddHeadThenForget(m: Model, x: Node, h: Node)
    requires WellFormed(m) && h in Nodes(m) && x !in Nodes(m)
    ensures var m' := OnRings(m, AddHead(h, x));
            && Stripped(m', x) == m && Nodes(m') == Nodes(m) + {x}
            && exists i :: 0 <= i < |m'| && JustAfter(m'[i], x, h)
  {
    var i, k :| 0 <= i < |m| && 0 <= k < |m[i]| && m[i][k] == h;
    AddHeadAt(m, i, k, x);
    InsertedAfter(m[i], k, x);
    assert JustAfter(OnRings(m, AddHead(h, x))[i], x, h);
  }

  // ---- What each call does to the lists ----

  lemma FreedWellFormed(m: Model, x: Node)
    requires WellFormed(m)
    ensures WellFormed(Freed(m, x))
  {
    var _ := FreedIs(m, x);
  }

  /** list_add_tail puts the item just before its first argument, and changes nothing else. */
  lemma AddTailPlaces(m: Model, h: Node, x: Node)
    requires WellFormed(m) && Legal(m, AddTail(h, x))
    ensures var m' := Apply(m, AddTail(h, x));
            && Stripped(m', x) == Freed(m, x)
            && exists i :: 0 <= i < |m'| && JustBefore(m'[i], x, h)
  {
    FreedWellFormed(m, x);
    AddThenForget(Freed(m, x), x, h);
  }

  /** list_add_head puts the item just after its first argument, and changes nothing else. */
  lemma AddHeadPlaces(m: Model, h: Node, x: Node)
    requires WellFormed(m) && Legal(m, AddHead(h, x))
    ensures var m' := Apply(m, AddHead(h, x));
            && Stripped(m', x) == Freed(m, x)
            && exists i :: 0 <= i < |m'| && JustAfter(m'[i], x, h)
  {
    FreedWellFormed(m, x);
    AddHeadThenForget(Freed(m, x), x, h);
  }

  /** With the head of list i that is the end of the list, or its front. */
  lemma AddAtHead(m: Model, i: nat, x: Node)
    requires WellFormed(m) && i < |Freed(m, x)|
    ensures WellFormed(Freed(m, x))
    ensures var r := Freed(m, x)[i];
            && Apply(m, AddTail(r[0], x)) == Freed(m, x)[i := r + [x]]
            && Apply(m, AddHead(r[0], x)) == Freed(m, x)[i := [r[0], x] + r[1..]]
  {
    FreedWellFormed(m, x);
    var f := Freed(m, x);
    var r := f[i];
    OneRingChanges(f, AddTail(r[0], x), i, 0);
    OneRingChanges(f, AddHead(r[0], x), i, 0);
    assert InsertAt(r, |r|, x) == r + [x] && InsertAt(r, 1, x) == [r[0], x] + r[1..];
  }

  /** list_init adds an empty list, unless the node is the head of one already, and keeps every list. */
  lemma InitPlaces(m: Model, n: Node)
    ensures var m' := Apply(m, Init(n));
            && [n] in m' && m <= m' && |m'| == |m| + if [n] in m then 0 else 1
  {
    assert (m + [[n]])[|m|] == [n];
  }

  /** list_remove takes the node out of its list and changes nothing else; a node alone stays as it is. */
  lemma RemovePlaces(m: Model, x: Node)
    requires WellFormed(m) && Legal(m, Remove(x))
    ensures var m' := Apply(m, Remove(x));
            if [x] in m then m' == m else x !in Nodes(m') && m' == Stripped(m, x)
  {
    var i, k :| 0 <= i < |m| && 0 <= k < |m[i]| && m[i][k] == x;
    if |m[i]| > 1 {
      RemovedFromList(m, i, k);
      Absent(m, i, k);
      NotAlone(m, i, k);
    } else {
      RemovedAlone(m, i);
      assert [x] == m[i];
      assert m[i] in m;
    }
  }

  /** Moving any node before any other, in the same list or another: list_remove and then
      list_add_tail is legal, neither loses nor gains a node, puts the node where it should be, and
      leaves the order of all other nodes as it was. */
  lemma MoveConserves(m: Model, x: Node, h: Node)
    requires WellFormed(m) && x in Nodes(m) && h in Nodes(m) && h != x
    ensures AllLegal(m, [Remove(x), AddTail(h, x)])
    ensures var m' := ApplyAll(m, [Remove(x), AddTail(h, x)]);
            && Nodes(m') == Nodes(m) && Stripped(m', x) == Stripped(m, x)
            && exists i :: 0 <= i < |m'| && JustBefore(m'[i], x, h)
  {
    var m1 := Apply(m, Remove(x));
    RemoveThenFree(m, x);
    AddThenForget(Freed(m1, x), x, h);
    var rest := [AddTail(h, x)];
    assert [Remove(x), AddTail(h, x)][1..] == rest && rest[1..] == [];
    assert ApplyAll(m1, rest) == ApplyAll(Apply(m1, rest[0]), []) == Apply(m1, rest[0]);
  }
}
