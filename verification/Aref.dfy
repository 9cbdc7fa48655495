/** The shared reference count of cutils/aref.h. */
module Aref {
  import opened Int32
  import opened AtomicSpec
  import opened Options
  import Sc = AtomicMachine
  import X86 = TsoAtomics
  import Tso

  /** The count, for callers that take turns; `live` is the number of references they hold. */
  class Counter {
    var count: int32
    ghost var live: nat

    ghost predicate Valid()
      reads this
    {
      count == Wrap(live)
    }

    /** aref_init: the creator holds the one reference. */
    constructor ()
      ensures Valid() && live == 1
    {
      count, live := 1, 1;
    }

    /** aref_count: the number of references, exactly as long as it fits an int32_t. */
    method Count() returns (c: int32)
      requires Valid()
      ensures c == live <==> live <= MAX
    {
      c := count;
      if live <= MAX { WrapIdentity(live); }
    }

    /** android_atomic_add. */
    method AtomicAdd(inc: int32) returns (prev: int32)
      modifies `count
      ensures prev == old(count) && count == Wrap(old(count) + inc)
    {
      prev := count;
      count := Wrap(count + inc);
    }

    /** aref_get, by the holder of a reference. */
    method Get()
      requires Valid() && live > 0
      modifies this
      ensures Valid() && live == old(live) + 1
    {
      WrapAdd(live, 1);
      var _ := AtomicAdd(1);
      live := live + 1;
    }

    /** aref_put, which gives a reference up: `releases` says whether the callback is called. */
    method Put() returns (releases: bool)
      requires Valid() && live > 0
      modifies this
      ensures Valid() && live == old(live) - 1
      ensures releases <==> old(live) % MODULUS == 1
    {
      WrapAdd(live, -1);
      WrapIs(live, 1);
      var prev := AtomicAdd(-1);
      releases := prev == 1;
      live := live - 1;
    }
  }

  // ---- Any number of threads sharing one count, on any machine with atomic steps ----

  const GET: Op := Add(1)
  const PUT: Op := Add(-1)
  const COUNT: Op := Op.Get

  /** A run as clients see it: what happens on the word, and references handed from thread to thread. */
  datatype Deed = Happens(e: Event) | Gives(t: nat, u: nat)

  /** `refs[t]`: references thread t holds; `call[t]`: the operation it is in the middle of; `fired`:
      calls of the release callback. */
  datatype Client = Client(refs: seq<nat>, call: seq<Option<Op>>, fired: nat)

  /** The rules of aref.h: a thread uses the count only while it holds a reference, and a put gives the
      reference up. */
  predicate Obeys(c: Client, d: Deed) {
    |c.call| == |c.refs| &&
    match d
    case Gives(t, u) => t < |c.refs| && u < |c.refs| && c.call[t] == None && c.refs[t] > 0
    case Happens(Called(t, op)) =>
      t < |c.refs| && c.call[t] == None && c.refs[t] > 0 && (op == GET || op == PUT || op == COUNT)
    case Happens(Took(t)) => t < |c.refs| && c.call[t].Some?
    case Happens(Ended(t, _)) => t < |c.refs| && c.call[t].Some?
    case Happens(Landed(_, _)) => false
  }

  function Act(c: Client, d: Deed): Client
    requires Obeys(c, d)
  {
    match d
    case Gives(t, u) =>
      var taken := c.refs[t := c.refs[t] - 1];
      c.(refs := taken[u := taken[u] + 1])
    case Happens(Called(t, op)) =>
      c.(call := c.call[t := Some(op)], refs := if op == PUT then c.refs[t := c.refs[t] - 1] else c.refs)
    case Happens(Took(_)) => c
    case Happens(Ended(t, v)) =>
      var op := c.call[t].value;
      Client(if op == GET then c.refs[t := c.refs[t] + 1] else c.refs, c.call[t := None],
             if op == PUT && v == 1 then c.fired + 1 else c.fired)
  }

  /** Client and machine together. */
  datatype System = System(a: Ideal, c: Client)

  predicate Enabled(s: System, d: Deed) {
    Obeys(s.c, d) && (d.Happens? ==> Permits(s.a, d.e))
  }

  function Step(s: System, d: Deed): System
    requires Enabled(s, d)
  {
    System(if d.Happens? then Advance(s.a, d.e) else s.a, Act(s.c, d))
  }

  predicate Runs(s: System, ds: seq<Deed>)
    decreases |ds|
  {
    ds == [] || (Enabled(s, ds[0]) && Runs(Step(s, ds[0]), ds[1..]))
  }

  function After(s: System, ds: seq<Deed>): System
    requires Runs(s, ds)
    decreases |ds|
  {
    if ds == [] then s else After(Step(s, ds[0]), ds[1..])
  }

  function Total(ns: seq<nat>): nat {
    if ns == [] then 0 else ns[0] + Total(ns[1..])
  }

  /** A get that has taken its step, or a put that has not, stands for one reference of its own. */
  function InFlight(v: View): nat {
    if (v.Taken? && v.op == GET) || (v.Pending? && v.op == PUT) then 1 else 0
  }

  function Held(s: System): seq<nat>
    requires |s.a.views| == |s.c.refs|
  {
    seq(|s.c.refs|, t requires 0 <= t < |s.c.refs| => s.c.refs[t] + InFlight(s.a.views[t]))
  }

  /** The number of live references. */
  function Live(s: System): nat
    requires |s.a.views| == |s.c.refs|
  {
    Total(Held(s))
  }

  /** aref_init has run, and its one reference belongs to some thread. */
  predicate Initial(s: System) {
    && s.a == Start(1, |s.c.refs|)
    && Total(s.c.refs) == 1 && s.c.fired == 0
    && s.c.call == seq(|s.c.refs|, _ => None)
  }

  lemma {:induction false} TotalUpdate(ns: seq<nat>, t: nat, v: nat)
    requires t < |ns|
    ensures Total(ns[t := v]) == Total(ns) - ns[t] + v
    ensures Total(ns) >= ns[t]
  {
    if t == 0 {
      assert ns[t := v][1..] == ns[1..];
    } else {
      TotalUpdate(ns[1..], t - 1, v);
      assert ns[t := v][1..] == ns[1..][t - 1 := v];
    }
  }

  // ---- Without any bound: the count is right modulo 2^32 ----

  predicate KnownOp(op: Op) { op == GET || op == PUT || op == COUNT }

  /** Client and machine agree on who is in which call; whoever is in a get or a count holds a reference. */
  predicate CallMatches(refs: nat, call: Option<Op>, v: View) {
    match v
    case Idle => call == None
    case Pending(op) => call == Some(op) && KnownOp(op) && (op != PUT ==> refs > 0)
    case Taken(op, _) => call == Some(op) && KnownOp(op) && (op != PUT ==> refs > 0)
  }

  predicate Agree(s: System) {
    && |s.a.views| == |s.c.refs| == |s.c.call|
    && forall t | 0 <= t < |s.c.refs| :: CallMatches(s.c.refs[t], s.c.call[t], s.a.views[t])
  }

  lemma StepKeepsAgree(s: System, d: Deed)
    requires Agree(s) && Enabled(s, d)
    ensures Agree(Step(s, d)) && |Step(s, d).c.refs| == |s.c.refs|
  {
    if d.Happens? {
      var t := d.e.t;
      assert CallMatches(s.c.refs[t], s.c.call[t], s.a.views[t]);
    }
  }

  /** How each deed changes the number of live references: only the steps of gets and puts do. */
  function Change(a: Ideal, d: Deed): int {
    match d
    case Happens(Took(t)) => if t < |a.views| && a.views[t].Pending? then Increment(a.views[t].op) else 0
    case _ => 0
  }

  /** Handing a reference over moves one unit; everything else concerns one thread. */
  lemma HeldAfterGive(s: System, t: nat, u: nat)
    requires Agree(s) && Enabled(s, Gives(t, u))
    ensures |Held(Step(s, Gives(t, u)))| == |Held(s)| && Held(s)[t] > 0
    ensures var h := Held(s)[t := Held(s)[t] - 1]; Held(Step(s, Gives(t, u))) == h[u := h[u] + 1]
  {
  }

  lemma HeldAfterEvent(s: System, e: Event)
    requires Agree(s) && Enabled(s, Happens(e))
    ensures |Step(s, Happens(e)).a.views| == |Step(s, Happens(e)).c.refs|
    ensures Held(s)[e.t] + Change(s.a, Happens(e)) >= 0
    ensures Held(Step(s, Happens(e))) == Held(s)[e.t := Held(s)[e.t] + Change(s.a, Happens(e))]
    ensures e.Called? || e.Took? ==> Held(s)[e.t] > 0
  {
    assert CallMatches(s.c.refs[e.t], s.c.call[e.t], s.a.views[e.t]);
  }

  lemma MoveTotal(h: seq<nat>, t: nat, u: nat)
    requires t < |h| && u < |h| && h[t] > 0
    ensures var h1 := h[t := h[t] - 1]; Total(h1[u := h1[u] + 1]) == Total(h)
  {
    var h1 := h[t := h[t] - 1];
    TotalUpdate(h, t, h[t] - 1);
    TotalUpdate(h1, u, h1[u] + 1);
  }

  lemma LiveEvent(s: System, e: Event)
    requires Agree(s) && Enabled(s, Happens(e))
    ensures |Step(s, Happens(e)).a.views| == |Step(s, Happens(e)).c.refs|
    ensures Live(Step(s, Happens(e))) == Live(s) + Change(s.a, Happens(e))
    ensures e.Called? || e.Took? ==> Live(s) > 0
  {
    HeldAfterEvent(s, e);
    TotalUpdate(Held(s), e.t, Held(s)[e.t] + Change(s.a, Happens(e)));
  }

  lemma LiveStep(s: System, d: Deed)
    requires Agree(s) && Enabled(s, d)
    ensures Agree(Step(s, d)) && Live(Step(s, d)) == Live(s) + Change(s.a, d)
    ensures d.Happens? && (d.e.Called? || d.e.Took?) ==> Live(s) > 0
  {
    StepKeepsAgree(s, d);
    match d
    case Gives(t, u) =>
      HeldAfterGive(s, t, u);
      MoveTotal(Held(s), t, u);
    case Happens(e) => LiveEvent(s, e);
  }

  function Word(a: Ideal): int32 { Final(a.init, a.steps) }

  lemma WordTook(a: Ideal, t: nat)
    requires Permits(a, Took(t)) && KnownOp(a.views[t].op)
    ensures Word(Advance(a, Took(t))) == Wrap(Word(a) + Increment(a.views[t].op))
  {
    var op := a.views[t].op;
    FinalAppend(a.init, a.steps, AtomicSpec.Step(t, op));
    assert Word(Advance(a, Took(t))) == NewValue(op, Word(a));
    WrapIdentity(Word(a));
  }

  lemma WordStep(a: Ideal, e: Event)
    requires Permits(a, e) && !e.Landed?
    requires e.Took? ==> KnownOp(a.views[e.t].op)
    ensures Word(Advance(a, e)) == Wrap(Word(a) + Change(a, Happens(e)))
  {
    if e.Took? {
      WordTook(a, e.t);
    } else {
      WrapIdentity(Word(a));
    }
  }

  ghost predicate Counts(s: System) {
    Agree(s) && Word(s.a) == Wrap(Live(s))
  }

  lemma WordChange(s: System, d: Deed)
    requires Agree(s) && Enabled(s, d)
    ensures Word(Step(s, d).a) == Wrap(Word(s.a) + Change(s.a, d))
  {
    WrapIdentity(Word(s.a));
    if d.Happens? {
      assert CallMatches(s.c.refs[d.e.t], s.c.call[d.e.t], s.a.views[d.e.t]);
      WordStep(s.a, d.e);
    }
  }

  lemma StepKeepsCounts(s: System, d: Deed)
    requires Counts(s) && Enabled(s, d)
    ensures Counts(Step(s, d))
  {
    LiveStep(s, d);
    WordChange(s, d);
    WrapAdd(Live(s), Change(s.a, d));
  }

  lemma {:induction false} RunKeepsCounts(s: System, ds: seq<Deed>)
    requires Counts(s) && Runs(s, ds)
    ensures Counts(After(s, ds))
    decreases |ds|
  {
    if ds == [] {
    } else {
      StepKeepsCounts(s, ds[0]);
      RunKeepsCounts(Step(s, ds[0]), ds[1..]);
    }
  }

  lemma InitialCounts(s: System)
    requires Initial(s)
    ensures Counts(s) && Live(s) == 1
  {
    assert Held(s) == s.c.refs;
  }

  /** The put of t has taken its step and found a count of 1. */
  predicate Releasing(a: Ideal, t: nat) {
    && t < |a.views| && a.views[t].Taken? && a.views[t].op == PUT && a.views[t].k <= |a.steps|
    && Final(a.init, a.steps[..a.views[t].k]) == 1
  }

  /** Exactly when a put decides to release, in any run: the references alive before its step are 1
      modulo 2^32. */
  lemma PutReleasesExactlyWhen(s: System, ds: seq<Deed>, t: nat)
    requires Initial(s) && Runs(s, ds) && Enabled(After(s, ds), Happens(Took(t)))
    requires After(s, ds).a.views[t].op == PUT
    ensures Agree(After(s, ds))
    ensures Releasing(Step(After(s, ds), Happens(Took(t))).a, t) <==> Live(After(s, ds)) % MODULUS == 1
  {
    InitialCounts(s);
    RunKeepsCounts(s, ds);
    PutTest(After(s, ds), t);
  }

  lemma PutTest(s: System, t: nat)
    requires Counts(s) && Enabled(s, Happens(Took(t))) && s.a.views[t].op == PUT
    ensures Releasing(Advance(s.a, Took(t)), t) <==> Live(s) % MODULUS == 1
  {
    assert Advance(s.a, Took(t)).steps[..|s.a.steps|] == s.a.steps;
    WrapIs(Live(s), 1);
  }

  /** What aref_count reads at its step is the number of live references exactly while that fits. */
  lemma CountIsLive(s: System, ds: seq<Deed>)
    requires Initial(s) && Runs(s, ds)
    ensures Agree(After(s, ds))
    ensures Word(After(s, ds).a) == Live(After(s, ds)) <==> Live(After(s, ds)) <= MAX
  {
    InitialCounts(s);
    RunKeepsCounts(s, ds);
    if Live(After(s, ds)) <= MAX { WrapIdentity(Live(After(s, ds))); }
  }

  // ---- At most 2^32 live references: release is called exactly once, last ----

  /** The run never has `bound` or more references alive. */
  predicate StaysBelow(s: System, ds: seq<Deed>, bound: nat)
    requires Runs(s, ds)
    decreases |ds|
  {
    && |s.a.views| == |s.c.refs|
    && Live(s) < bound
    && (ds == [] || StaysBelow(Step(s, ds[0]), ds[1..], bound))
  }

  function Releasers(a: Ideal): set<nat> {
    set t | 0 <= t < |a.views| && Releasing(a, t)
  }

  predicate StepsKnown(a: Ideal) {
    forall t | 0 <= t < |a.views| && a.views[t].Taken? :: a.views[t].k <= |a.steps|
  }

  /** While a reference is alive nobody releases; afterwards one put does, or has. */
  predicate OneRelease(s: System)
    requires |s.a.views| == |s.c.refs|
  {
    if Live(s) > 0 then Releasers(s.a) == {} && s.c.fired == 0 else s.c.fired + |Releasers(s.a)| == 1
  }

  ghost predicate Inv(s: System) {
    Counts(s) && StepsKnown(s.a) && OneRelease(s)
  }

  lemma TookReleasers(s: System, t: nat)
    requires Counts(s) && StepsKnown(s.a) && Enabled(s, Happens(Took(t))) && Live(s) <= MODULUS
    ensures var more := if s.a.views[t].op == PUT && Live(s) == 1 then {t} else {};
            Releasers(Advance(s.a, Took(t))) == Releasers(s.a) + more
    ensures t !in Releasers(s.a)
  {
    var a' := Advance(s.a, Took(t));
    LiveStep(s, Happens(Took(t)));
    if s.a.views[t].op == PUT { PutTest(s, t); }
    forall u | 0 <= u < |s.a.views| && u != t ensures Releasing(a', u) <==> Releasing(s.a, u) {
      if s.a.views[u].Taken? { assert a'.steps[..s.a.views[u].k] == s.a.steps[..s.a.views[u].k]; }
    }
  }

  lemma EndedReleasers(s: System, t: nat, v: int32)
    requires Counts(s) && StepsKnown(s.a) && Enabled(s, Happens(Ended(t, v)))
    ensures Releasers(Advance(s.a, Ended(t, v))) == Releasers(s.a) - {t}
    ensures t in Releasers(s.a) <==> s.c.call[t] == Some(PUT) && v == 1
  {
    assert CallMatches(s.c.refs[t], s.c.call[t], s.a.views[t]);
  }

  lemma CalledReleasers(s: System, t: nat, op: Op)
    requires Enabled(s, Happens(Called(t, op)))
    ensures Releasers(Advance(s.a, Called(t, op))) == Releasers(s.a)
  {
  }

  lemma StepKeepsRelease(s: System, d: Deed)
    requires Inv(s) && Enabled(s, d) && Live(s) <= MODULUS
    ensures |Step(s, d).a.views| == |Step(s, d).c.refs| && OneRelease(Step(s, d))
  {
    LiveStep(s, d);
    match d
    case Gives(_, _) =>
    case Happens(Called(t, op)) => CalledReleasers(s, t, op);
    case Happens(Took(t)) =>
      assert CallMatches(s.c.refs[t], s.c.call[t], s.a.views[t]);
      TookReleasers(s, t);
    case Happens(Ended(t, v)) => EndedReleasers(s, t, v);
  }

  lemma StepKeepsInv(s: System, d: Deed)
    requires Inv(s) && Enabled(s, d) && Live(s) <= MODULUS
    ensures Inv(Step(s, d))
  {
    StepKeepsCounts(s, d);
    StepKeepsRelease(s, d);
  }

  lemma {:induction false} RunKeepsInv(s: System, ds: seq<Deed>)
    requires Inv(s) && Runs(s, ds) && StaysBelow(s, ds, MODULUS + 1)
    ensures Inv(After(s, ds))
    decreases |ds|
  {
    if ds == [] {
    } else {
      StepKeepsInv(s, ds[0]);
      RunKeepsInv(Step(s, ds[0]), ds[1..]);
    }
  }

  lemma InitialInv(s: System)
    requires Initial(s)
    ensures Inv(s)
  {
    InitialCounts(s);
  }

  /** Release has not been called while a reference is alive, has not been called twice, and has been
      called once every reference is put and every call has returned. */
  ghost predicate ReleasedOnce(s: System, ds: seq<Deed>)
    requires Runs(s, ds) && Agree(After(s, ds))
  {
    var s' := After(s, ds);
    && (Live(s') > 0 ==> s'.c.fired == 0)
    && s'.c.fired <= 1
    && (Live(s') == 0 && (forall t | 0 <= t < |s'.c.call| :: s'.c.call[t] == None) ==> s'.c.fired == 1)
  }

  /** Release is never called while a reference is alive, never twice, and once every reference is put
      and every call has returned it has been called. */
  lemma ReleaseOnceAfterLastPut(s: System, ds: seq<Deed>)
    requires Initial(s) && Runs(s, ds) && StaysBelow(s, ds, MODULUS + 1)
    ensures Agree(After(s, ds)) && ReleasedOnce(s, ds)
  {
    InitialInv(s);
    RunKeepsInv(s, ds);
    var s' := After(s, ds);
    if forall t | 0 <= t < |s'.c.call| :: s'.c.call[t] == None {
      forall t | 0 <= t < |s'.a.views| ensures !Releasing(s'.a, t) {
        assert CallMatches(s'.c.refs[t], s'.c.call[t], s'.a.views[t]);
      }
      assert Releasers(s'.a) == {};
    }
  }

  lemma {:induction false} NothingAfterZero(s: System, ds: seq<Deed>)
    requires Inv(s) && Runs(s, ds) && Live(s) == 0
    ensures forall k | 0 <= k < |ds| :: ds[k].Happens? && ds[k].e.Ended?
    ensures After(s, ds).a.steps == s.a.steps
    decreases |ds|
  {
    if ds == [] {
    } else {
      var d := ds[0];
      StepKeepsInv(s, d);
      LiveStep(s, d);
      if d.Gives? { TotalUpdate(Held(s), d.t, 0); }
      NothingAfterZero(Step(s, d), ds[1..]);
    }
  }

  lemma {:induction false} RunsConcat(s: System, ds: seq<Deed>, es: seq<Deed>)
    requires Runs(s, ds + es)
    ensures Runs(s, ds) && Runs(After(s, ds), es) && After(s, ds + es) == After(After(s, ds), es)
    decreases |ds|
  {
    if ds == [] {
      assert ds + es == es;
    } else {
      assert (ds + es)[1..] == ds[1..] + es;
      RunsConcat(Step(s, ds[0]), ds[1..], es);
    }
  }

  /** Once no reference is left, nobody reads or writes the count again, in any continuation: all that
      can still happen is that calls return which have taken their step before. */
  lemma NothingAfterLastPut(s: System, ds: seq<Deed>, es: seq<Deed>)
    requires Initial(s) && Runs(s, ds + es) && Runs(s, ds) && StaysBelow(s, ds, MODULUS + 1)
    requires |After(s, ds).a.views| == |After(s, ds).c.refs| && Live(After(s, ds)) == 0
    ensures forall k | 0 <= k < |es| :: es[k].Happens? && es[k].e.Ended?
    ensures After(s, ds + es).a.steps == After(s, ds).a.steps
  {
    RunsConcat(s, ds, es);
    InitialInv(s);
    RunKeepsInv(s, ds);
    NothingAfterZero(After(s, ds), es);
  }

  // ---- The bound is exact ----

  /** One thread, at rest. */
  ghost predicate Alone(s: System) {
    && Counts(s) && Matched(s.a)
    && |s.c.refs| == 1 && s.c.refs[0] > 0
    && s.a.views[0] == Idle && s.c.call[0] == None
  }

  lemma OneDeed(s: System, d: Deed)
    requires Enabled(s, d)
    ensures Runs(s, [d]) && After(s, [d]) == Step(s, d)
  {
    var ds := [d];
    assert ds[1..] == [];
  }

  lemma PrependDeed(s: System, d: Deed, ds: seq<Deed>)
    requires Enabled(s, d) && Runs(Step(s, d), ds)
    ensures Runs(s, [d] + ds) && After(s, [d] + ds) == After(Step(s, d), ds)
  {
    assert ([d] + ds)[1..] == ds;
  }

  lemma ThreeDeeds(s: System, d0: Deed, d1: Deed, d2: Deed)
    requires Enabled(s, d0) && Enabled(Step(s, d0), d1) && Enabled(Step(Step(s, d0), d1), d2)
    ensures Runs(s, [d0, d1, d2]) && After(s, [d0, d1, d2]) == Step(Step(Step(s, d0), d1), d2)
  {
    var s1 := Step(s, d0);
    var s2 := Step(s1, d1);
    OneDeed(s2, d2);
    PrependDeed(s1, d1, [d2]);
    PrependDeed(s, d0, [d1] + [d2]);
    assert [d0] + ([d1] + [d2]) == [d0, d1, d2];
  }

  lemma OneGet(s: System) returns (ds: seq<Deed>)
    requires Alone(s)
    ensures Runs(s, ds) && Alone(After(s, ds)) && After(s, ds).c.refs[0] == s.c.refs[0] + 1
  {
    var v := Word(s.a);
    var a' := InstantCall(s.a, 0, GET);
    var d0, d1, d2 := Happens(Called(0, GET)), Happens(Took(0)), Happens(Ended(0, v));
    StepKeepsCounts(s, d0);
    StepKeepsCounts(Step(s, d0), d1);
    StepKeepsCounts(Step(Step(s, d0), d1), d2);
    ThreeDeeds(s, d0, d1, d2);
    ds := [d0, d1, d2];
  }

  /** The simplest run that ends in a release: the one reference is put. */
  lemma LastPutReleases(s: System) returns (ds: seq<Deed>)
    requires Alone(s) && s.c.refs[0] == 1
    ensures Runs(s, ds) && After(s, ds).c.fired == s.c.fired + 1
    ensures |After(s, ds).a.views| == |After(s, ds).c.refs| && Live(After(s, ds)) == 0
  {
    var a' := InstantCall(s.a, 0, PUT);
    TotalOne(Held(s));
    WrapIdentity(1);
    var d0, d1, d2 := Happens(Called(0, PUT)), Happens(Took(0)), Happens(Ended(0, 1));
    ThreeDeeds(s, d0, d1, d2);
    ds := [d0, d1, d2];
    TotalOne(Held(After(s, ds)));
  }

  lemma {:induction false} ManyGets(s: System, n: nat) returns (ds: seq<Deed>)
    requires Alone(s)
    ensures Runs(s, ds) && Alone(After(s, ds)) && After(s, ds).c.refs[0] == s.c.refs[0] + n
    decreases n
  {
    if n == 0 {
      ds := [];
    } else {
      var first := OneGet(s);
      var rest := ManyGets(After(s, first), n - 1);
      ds := first + rest;
      ConcatRuns(s, first, rest);
    }
  }

  lemma {:induction false} ConcatRuns(s: System, ds: seq<Deed>, es: seq<Deed>)
    requires Runs(s, ds) && Runs(After(s, ds), es)
    ensures Runs(s, ds + es) && After(s, ds + es) == After(After(s, ds), es)
    decreases |ds|
  {
    if ds == [] {
      assert ds + es == es;
    } else {
      ConcatRuns(Step(s, ds[0]), ds[1..], es);
      PrependDeed(s, ds[0], ds[1..] + es);
      assert [ds[0]] + (ds[1..] + es) == ds + es;
    }
  }

  lemma TotalOne(ns: seq<nat>)
    requires |ns| == 1
    ensures Total(ns) == ns[0]
  {
    assert ns[1..] == [];
  }

  lemma EarlyRelease(s: System)
    requires Alone(s) && s.c.refs[0] == 1 + MODULUS
    ensures var call, took := Happens(Called(0, PUT)), Happens(Took(0));
            && Enabled(s, call) && Enabled(Step(s, call), took)
            && var s' := Step(Step(s, call), took);
               |s'.a.views| == |s'.c.refs| && Releasing(s'.a, 0) && Live(s') == MODULUS
  {
    var call := Happens(Called(0, PUT));
    TotalOne(Held(s));
    StepKeepsCounts(s, call);
    LiveStep(s, call);
    PutTest(Step(s, call), 0);
    LiveStep(Step(s, call), Happens(Took(0)));
  }

  lemma OneReference(s: System)
    requires s == System(Start(1, 1), Client([1], [None], 0))
    ensures Initial(s) && Alone(s)
  {
    assert s.c.call == seq(1, _ => None);
    InitialCounts(s);
  }

  /** With 2^32 + 1 references alive a put releases although 2^32 of them are left. */
  lemma TooManyReferencesReleaseEarly()
    ensures exists s, ds ::
              && Initial(s) && Runs(s, ds) && Enabled(After(s, ds), Happens(Took(0)))
              && var s' := Step(After(s, ds), Happens(Took(0)));
                 |s'.a.views| == |s'.c.refs| && Releasing(s'.a, 0) && Live(s') == MODULUS
  {
    var s, call := System(Start(1, 1), Client([1], [None], 0)), Happens(Called(0, PUT));
    OneReference(s);
    var gets := ManyGets(s, MODULUS);
    EarlyRelease(After(s, gets));
    OneDeed(After(s, gets), call);
    ConcatRuns(s, gets, [call]);
  }

  // ---- On the machines ----

  /** The events on the word among the deeds. */
  function Events(ds: seq<Deed>): seq<Event>
    decreases |ds|
  {
    if ds == [] then [] else (if ds[0].Happens? then [ds[0].e] else []) + Events(ds[1..])
  }

  /** Clients that keep the rules throughout. */
  predicate Disciplined(c: Client, ds: seq<Deed>)
    decreases |ds|
  {
    ds == [] || (Obeys(c, ds[0]) && Disciplined(Act(c, ds[0]), ds[1..]))
  }

  lemma {:induction false} AcceptedAndDisciplined(a: Ideal, c: Client, ds: seq<Deed>)
    requires Accepts(a, Events(ds)) && Disciplined(c, ds)
    ensures Runs(System(a, c), ds) && After(System(a, c), ds).a == AdvanceAll(a, Events(ds))
    decreases |ds|
  {
    if ds == [] {
    } else {
      var d := ds[0];
      if d.Happens? {
        assert Events(ds)[0] == d.e && Events(ds)[1..] == Events(ds[1..]);
        AcceptedAndDisciplined(Advance(a, d.e), Act(c, d), ds[1..]);
      } else {
        assert Events(ds) == Events(ds[1..]);
        AcceptedAndDisciplined(a, Act(c, d), ds[1..]);
      }
    }
  }

  /** Clients just after aref_init. */
  function Newborn(refs: seq<nat>): Client {
    Client(refs, seq(|refs|, _ => None), 0)
  }

  /** The reference count run by the instructions of the arm, mips or arm64 headers: in every run from
      aref_init, whatever the interleaving and the store-conditional failures, release is called once,
      after the last put. */
  lemma ReleaseOnceOnArmAndMips(arch: Sc.ScArch, s: Sc.System, acts: seq<Sc.Action>, refs: seq<nat>, ds: seq<Deed>)
    requires Sc.Initial(s) && s.word == 1 && Sc.Runs(arch, s, acts)
    requires |refs| == |s.threads| && Total(refs) == 1
    requires Events(ds) == Sc.Trace(arch, s, acts) && Disciplined(Newborn(refs), ds)
    ensures var s0 := System(Start(1, |refs|), Newborn(refs));
            && Runs(s0, ds)
            && After(s0, ds).a == Sc.History(arch, s, acts)
            && (StaysBelow(s0, ds, MODULUS + 1) ==> Agree(After(s0, ds)) && ReleasedOnce(s0, ds))
  {
    var s0 := System(Start(1, |refs|), Newborn(refs));
    Sc.Refinement(arch, s, acts);
    AcceptedAndDisciplined(s0.a, s0.c, ds);
    if StaysBelow(s0, ds, MODULUS + 1) { ReleaseOnceAfterLastPut(s0, ds); }
  }

  /** And on x86 under TSO, with the count beside anything else the processors do. */
  lemma ReleaseOnceOnX86(w: nat, s: X86.System, acts: seq<X86.Action>, refs: seq<nat>, ds: seq<Deed>)
    requires X86.Initial(s) && X86.Runs(w, s, acts) && Tso.Read(s.hw.mem, w) == 1
    requires |refs| == |s.threads| && Total(refs) == 1
    requires Events(ds) == X86.CoreEvents(X86.Trace(w, s, acts)) && Disciplined(Newborn(refs), ds)
    ensures var s0 := System(Start(1, |refs|), Newborn(refs));
            && Runs(s0, ds)
            && After(s0, ds).a == X86.History(w, s, acts)
            && (StaysBelow(s0, ds, MODULUS + 1) ==> Agree(After(s0, ds)) && ReleasedOnce(s0, ds))
  {
    var s0 := System(Start(1, |refs|), Newborn(refs));
    X86.Refinement(w, s, acts);
    AcceptedAndDisciplined(s0.a, s0.c, ds);
    if StaysBelow(s0, ds, MODULUS + 1) { ReleaseOnceAfterLastPut(s0, ds); }
  }
}
