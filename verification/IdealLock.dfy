/** The lock that clients program against: at most one holder, over ordinary memory. Both the
    spin lock and the flag protocol are shown to behave like it. */
module IdealLock {
  import opened Int32
  import opened Options
  import opened Tso

  /** What a client can observe. */
  datatype Event =
    | Acquired(t: nat)
    | Got(t: nat, a: Addr, v: int32)
    | Put(t: nat, a: Addr, v: int32)
    | Released(t: nat)

  datatype Ideal = Ideal(holder: Option<nat>, mem: Memory)

  predicate Permits(a: Ideal, e: Event) {
    match e
    case Acquired(_) => a.holder == None
    case Got(t, x, v) => a.holder == Some(t) && v == Read(a.mem, x)
    case Put(t, _, _) => a.holder == Some(t)
    case Released(t) => a.holder == Some(t)
  }

  function Advance(a: Ideal, e: Event): Ideal {
    match e
    case Acquired(t) => a.(holder := Some(t))
    case Got(_, _, _) => a
    case Put(_, x, v) => a.(mem := a.mem[x := v])
    case Released(_) => a.(holder := None)
  }

  predicate Accepts(a: Ideal, tr: seq<Event>)
    decreases |tr|
  {
    tr == [] || (Permits(a, tr[0]) && Accepts(Advance(a, tr[0]), tr[1..]))
  }

  function AdvanceAll(a: Ideal, tr: seq<Event>): Ideal
    decreases |tr|
  {
    if tr == [] then a else AdvanceAll(Advance(a, tr[0]), tr[1..])
  }

  lemma {:induction false} AcceptsConcat(a: Ideal, tr: seq<Event>, ts: seq<Event>)
    ensures Accepts(a, tr + ts) <==> Accepts(a, tr) && Accepts(AdvanceAll(a, tr), ts)
    ensures AdvanceAll(a, tr + ts) == AdvanceAll(AdvanceAll(a, tr), ts)
    decreases |tr|
  {
    if tr == [] {
      assert tr + ts == ts;
    } else {
      AcceptsConcat(Advance(a, tr[0]), tr[1..], ts);
      assert (tr + ts)[1..] == tr[1..] + ts;
    }
  }

  /** Who holds the lock after `tr`, and the last value put at `x` by anyone, read off the trace alone. */
  function Holder(tr: seq<Event>): Option<nat> {
    if tr == [] then None
    else match tr[|tr| - 1]
         case Acquired(t) => Some(t)
         case Released(_) => None
         case _ => Holder(tr[..|tr| - 1])
  }

  function Latest(tr: seq<Event>, x: Addr, init: int32): int32 {
    if tr == [] then init
    else match tr[|tr| - 1]
         case Put(_, y, v) => if y == x then v else Latest(tr[..|tr| - 1], x, init)
         case _ => Latest(tr[..|tr| - 1], x, init)
  }

  /** Event k of a trace that began with memory `m` is as clients of a lock expect: acquisitions find
      nobody inside, everything else is done by the holder, and a read returns the latest put. */
  predicate Orderly(tr: seq<Event>, m: Memory, k: nat)
    requires k < |tr|
  {
    match tr[k]
    case Acquired(_) => Holder(tr[..k]) == None
    case Got(t, x, v) => Holder(tr[..k]) == Some(t) && v == Latest(tr[..k], x, Read(m, x))
    case Put(t, _, _) => Holder(tr[..k]) == Some(t)
    case Released(t) => Holder(tr[..k]) == Some(t)
  }

  lemma {:induction false} IdealStateFromTrace(m: Memory, tr: seq<Event>, x: Addr)
    requires Accepts(Ideal(None, m), tr)
    ensures AdvanceAll(Ideal(None, m), tr).holder == Holder(tr)
    ensures Read(AdvanceAll(Ideal(None, m), tr).mem, x) == Latest(tr, x, Read(m, x))
    decreases |tr|
  {
    if tr == [] {
    } else {
      var front, last := tr[..|tr| - 1], tr[|tr| - 1..];
      assert tr == front + last;
      AcceptsConcat(Ideal(None, m), front, last);
      IdealStateFromTrace(m, front, x);
    }
  }

  /** What acceptance by the ideal lock means for the trace itself. */
  lemma AcceptedIsOrderly(m: Memory, tr: seq<Event>, k: nat)
    requires Accepts(Ideal(None, m), tr) && k < |tr|
    ensures Orderly(tr, m, k)
  {
    assert tr == tr[..k] + tr[k..];
    AcceptsConcat(Ideal(None, m), tr[..k], tr[k..]);
    IdealStateFromTrace(m, tr[..k], if tr[k].Got? then tr[k].a else 0);
  }
}
