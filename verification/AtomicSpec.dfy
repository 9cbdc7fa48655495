/** What every android_atomic_* operation is meant to be: one indivisible step on one word. */
module AtomicSpec {
  import opened Int32
  import opened Words

  datatype Op =
    | Cas(old_: int32, new_: int32)
    | Add(inc: int32)
    | And(mask: int32)
    | Or(mask: int32)
    | Put(val: int32)
    | Get

  /** The word after the step, when it held `w` before. */
  function NewValue(op: Op, w: int32): int32 {
    match op
    case Cas(o, n) => if w == o then n else w
    case Add(inc) => Wrap(w + inc)
    case And(m) => BitAnd(w, m)
    case Or(m) => BitOr(w, m)
    case Put(v) => v
    case Get => w
  }

  /** What the call returns: cas reports failure as 1, a store returns nothing, the rest the old word. */
  function Returned(op: Op, w: int32): int32 {
    match op
    case Cas(o, _) => if w != o then 1 else 0
    case Put(_) => 0
    case _ => w
  }

  datatype Step = Step(t: nat, op: Op)

  /** The word after a history of atomic steps. */
  function Final(init: int32, steps: seq<Step>): int32 {
    if steps == [] then init
    else NewValue(steps[|steps| - 1].op, Final(init, steps[..|steps| - 1]))
  }

  lemma FinalAppend(init: int32, steps: seq<Step>, last: Step)
    ensures Final(init, steps + [last]) == NewValue(last.op, Final(init, steps))
    ensures (steps + [last])[..|steps|] == steps
  {
  }

  // ---- Any number of threads calling the operations, each call one step of the history ----

  datatype View = Idle | Pending(op: Op) | Taken(op: Op, k: nat)

  /** `returned` maps the number of a step to the value its call has returned. */
  datatype Ideal = Ideal(init: int32, steps: seq<Step>, views: seq<View>, returned: map<nat, int32>)

  /** `Landed` is the step of a store that a processor has issued and moved on from: it takes effect on
      its own, after the call that issued it. */
  datatype Event =
    | Called(t: nat, op: Op)
    | Took(t: nat)
    | Ended(t: nat, v: int32)
    | Landed(t: nat, v: int32)

  predicate Permits(a: Ideal, e: Event) {
    && e.t < |a.views|
    && match e
       case Called(t, _) => a.views[t] == Idle
       case Took(t) => a.views[t].Pending?
       case Ended(t, v) =>
         && a.views[t].Taken?
         && a.views[t].k < |a.steps|
         && a.views[t].k !in a.returned
         && v == Returned(a.views[t].op, Final(a.init, a.steps[..a.views[t].k]))
       case Landed(_, _) => |a.steps| !in a.returned
  }

  function Advance(a: Ideal, e: Event): Ideal
    requires Permits(a, e)
  {
    match e
    case Called(t, op) => a.(views := a.views[t := Pending(op)])
    case Took(t) =>
      var op := a.views[t].op;
      a.(steps := a.steps + [Step(t, op)], views := a.views[t := Taken(op, |a.steps|)])
    case Ended(t, v) => a.(views := a.views[t := Idle], returned := a.returned[a.views[t].k := v])
    case Landed(t, v) =>
      var put := Put(v);
      a.(steps := a.steps + [Step(t, put)],
         returned := a.returned[|a.steps| := Returned(put, Final(a.init, a.steps))])
  }

  predicate Accepts(a: Ideal, tr: seq<Event>)
    decreases |tr|
  {
    tr == [] || (Permits(a, tr[0]) && Accepts(Advance(a, tr[0]), tr[1..]))
  }

  function AdvanceAll(a: Ideal, tr: seq<Event>): Ideal
    requires Accepts(a, tr)
    decreases |tr|
  {
    if tr == [] then a else AdvanceAll(Advance(a, tr[0]), tr[1..])
  }

  /** n threads, none of which has called anything yet. */
  function Start(init: int32, n: nat): Ideal {
    Ideal(init, [], seq(n, _ => Idle), map[])
  }

  /** Calls and steps match one to one: each step belongs to one call by its thread, which either has
      returned the value computed from the word just before that step, or has not returned yet. */
  ghost predicate Matched(a: Ideal) {
    && (forall t | 0 <= t < |a.views| && a.views[t].Taken? ::
          a.views[t].k < |a.steps| && a.steps[a.views[t].k] == Step(t, a.views[t].op))
    && (forall k: nat {:trigger k in a.returned} :: k in a.returned <==>
          k < |a.steps| && a.steps[k].t < |a.views| && a.views[a.steps[k].t] != Taken(a.steps[k].op, k))
    && (forall k | 0 <= k < |a.steps| :: a.steps[k].t < |a.views|)
    && (forall k {:trigger k in a.returned} | k in a.returned :: k < |a.steps| &&
          a.returned[k] == Returned(a.steps[k].op, Final(a.init, a.steps[..k])))
  }

  /** What is known of the returned values stays so when the history grows. */
  lemma ReturnedStays(a: Ideal, step: Step, k: nat)
    requires Matched(a) && k in a.returned
    ensures var steps := a.steps + [step];
            k < |steps| && a.returned[k] == Returned(steps[k].op, Final(a.init, steps[..k]))
  {
    assert (a.steps + [step])[..k] == a.steps[..k];
  }

  lemma TookKeepsMatched(a: Ideal, t: nat)
    requires Matched(a) && Permits(a, Took(t))
    ensures Matched(Advance(a, Took(t)))
  {
    forall k | k in a.returned
      ensures var a' := Advance(a, Took(t));
              k < |a'.steps| && a.returned[k] == Returned(a'.steps[k].op, Final(a.init, a'.steps[..k]))
    {
      ReturnedStays(a, Step(t, a.views[t].op), k);
    }
  }

  lemma LandedKeepsMatched(a: Ideal, t: nat, v: int32)
    requires Matched(a) && Permits(a, Landed(t, v))
    ensures Matched(Advance(a, Landed(t, v)))
  {
    var a' := Advance(a, Landed(t, v));
    var n := |a.steps|;
    assert a'.steps[..n] == a.steps && a'.steps[n] == Step(t, Put(v));
    forall k: nat
      ensures k in a'.returned <==> k < |a'.steps| && a'.views[a'.steps[k].t] != Taken(a'.steps[k].op, k)
    {
      assert k in a.returned <==> k < n && a.views[a.steps[k].t] != Taken(a.steps[k].op, k);
    }
    forall k | k in a'.returned
      ensures k < |a'.steps| && a'.returned[k] == Returned(a'.steps[k].op, Final(a.init, a'.steps[..k]))
    {
      if k != n { ReturnedStays(a, Step(t, Put(v)), k); }
    }
  }

  lemma AdvanceKeepsMatched(a: Ideal, e: Event)
    requires Matched(a) && Permits(a, e)
    ensures Matched(Advance(a, e))
  {
    match e
    case Took(t) => TookKeepsMatched(a, t);
    case Landed(t, v) => LandedKeepsMatched(a, t, v);
    case _ =>
  }

  /** A whole call at once. */
  lemma InstantCall(a: Ideal, t: nat, op: Op) returns (a': Ideal)
    requires Matched(a) && t < |a.views| && a.views[t] == Idle
    ensures Permits(a, Called(t, op)) && Permits(Advance(a, Called(t, op)), Took(t))
    ensures var a2 := Advance(Advance(a, Called(t, op)), Took(t)); var v := Returned(op, Final(a.init, a.steps));
            Permits(a2, Ended(t, v)) && a' == Advance(a2, Ended(t, v))
    ensures Matched(a') && a'.views == a.views && a'.init == a.init && a'.steps == a.steps + [Step(t, op)]
  {
    AdvanceKeepsMatched(a, Called(t, op));
    var a1 := Advance(a, Called(t, op));
    TookKeepsMatched(a1, t);
    var a2 := Advance(a1, Took(t));
    assert a2.steps[..|a.steps|] == a.steps;
    assert |a.steps| !in a2.returned;
    var e := Ended(t, Returned(op, Final(a.init, a.steps)));
    AdvanceKeepsMatched(a2, e);
    a' := Advance(a2, e);
    assert a'.views == a.views;
  }

  lemma {:induction false} AcceptsMatched(a: Ideal, tr: seq<Event>)
    requires Matched(a) && Accepts(a, tr)
    ensures Matched(AdvanceAll(a, tr))
    ensures AdvanceAll(a, tr).init == a.init
    decreases |tr|
  {
    if tr == [] {
    } else {
      AdvanceKeepsMatched(a, tr[0]);
      AcceptsMatched(Advance(a, tr[0]), tr[1..]);
    }
  }

  lemma {:induction false} AcceptsConcat(a: Ideal, tr: seq<Event>, ts: seq<Event>)
    requires Accepts(a, tr) && Accepts(AdvanceAll(a, tr), ts)
    ensures Accepts(a, tr + ts)
    ensures AdvanceAll(a, tr + ts) == AdvanceAll(AdvanceAll(a, tr), ts)
    decreases |tr|
  {
    if tr == [] {
      assert tr + ts == ts;
    } else {
      AcceptsConcat(Advance(a, tr[0]), tr[1..], ts);
      assert (tr + ts)[1..] == tr[1..] + ts;
    }
  }

  /** Every step taken or still to be taken is one of `ops`. */
  ghost predicate StepsWithin(a: Ideal, ops: iset<Op>) {
    && (forall k | 0 <= k < |a.steps| :: a.steps[k].op in ops)
    && (forall t | 0 <= t < |a.views| && a.views[t].Pending? :: a.views[t].op in ops)
  }

  ghost predicate CallsWithin(tr: seq<Event>, ops: iset<Op>) {
    && (forall k | 0 <= k < |tr| && tr[k].Called? :: tr[k].op in ops)
    && (forall k | 0 <= k < |tr| && tr[k].Landed? :: Put(tr[k].v) in ops)
  }

  /** Steps are only taken for operations that were called, and for stores that landed. */
  lemma {:induction false} StepsComeFromCalls(a: Ideal, tr: seq<Event>, ops: iset<Op>)
    requires StepsWithin(a, ops) && Accepts(a, tr) && CallsWithin(tr, ops)
    ensures StepsWithin(AdvanceAll(a, tr), ops)
    decreases |tr|
  {
    if tr == [] {
    } else {
      StepsComeFromCalls(Advance(a, tr[0]), tr[1..], ops);
    }
  }

  // ---- What calls return ----

  /** add, inc, dec, and, or and a load return the word just before their step. */
  lemma ReturnsPreviousWord(a: Ideal, k: nat)
    requires Matched(a) && k in a.returned
    ensures k < |a.steps|
    ensures !a.steps[k].op.Cas? && !a.steps[k].op.Put? ==> a.returned[k] == Final(a.init, a.steps[..k])
  {
  }

  /** A store sets the word, a load leaves it. */
  lemma StoresAndLoads(a: Ideal, k: nat)
    requires k < |a.steps|
    ensures a.steps[k].op.Put? ==> Final(a.init, a.steps[..k + 1]) == a.steps[k].op.val
    ensures a.steps[k].op.Get? ==> Final(a.init, a.steps[..k + 1]) == Final(a.init, a.steps[..k])
  {
    FinalAppend(a.init, a.steps[..k], a.steps[k]);
    assert a.steps[..k + 1] == a.steps[..k] + [a.steps[k]];
  }

  /** cas returns zero exactly when it found the old value, and only then the new one went in. */
  lemma CasReportsExchange(a: Ideal, k: nat)
    requires Matched(a) && k in a.returned
    ensures k < |a.steps|
    ensures a.steps[k].op.Cas? ==>
              var before, after := Final(a.init, a.steps[..k]), Final(a.init, a.steps[..k + 1]);
              && (a.returned[k] == 0 <==> before == a.steps[k].op.old_)
              && (a.returned[k] == 0 ==> after == a.steps[k].op.new_)
              && (a.returned[k] != 0 ==> after == before && a.returned[k] == 1)
  {
    FinalAppend(a.init, a.steps[..k], a.steps[k]);
    assert a.steps[..k + 1] == a.steps[..k] + [a.steps[k]];
  }

  // ---- Consequences for counters ----

  predicate OnlyAdds(steps: seq<Step>) {
    forall k | 0 <= k < |steps| :: steps[k].op.Add? || steps[k].op.Get?
  }

  function Increment(op: Op): int {
    if op.Add? then op.inc else 0
  }

  /** The exact sum of the increments in a history. */
  function Sum(steps: seq<Step>): int {
    if steps == [] then 0 else Sum(steps[..|steps| - 1]) + Increment(steps[|steps| - 1].op)
  }

  /** However the calls interleave, the word is the initial value plus the increments that have taken
      effect, modulo 2^32. */
  lemma {:induction false} WordIsSumOfIncrements(init: int32, steps: seq<Step>)
    requires OnlyAdds(steps)
    ensures Final(init, steps) == Wrap(init + Sum(steps))
  {
    if steps == [] {
      WrapIdentity(init);
    } else {
      var front, op := steps[..|steps| - 1], steps[|steps| - 1].op;
      WordIsSumOfIncrements(init, front);
      WrapAdd(init + Sum(front), Increment(op));
      assert init + Sum(front) + Increment(op) == init + Sum(steps);
    }
  }

  predicate InMask(op: Op, b: nat)
  {
    (op.Or? || op.And?) && BitSet(op.mask, b)
  }

  predicate OnlyOrs(steps: seq<Step>) {
    forall k | 0 <= k < |steps| :: steps[k].op.Or? || steps[k].op.Get?
  }

  /** Flags set with or are never lost, in whatever order the calls take effect: a bit is set exactly
      when it was set before or is in the mask of some call. */
  lemma {:induction false} FlagsAccumulate(init: int32, steps: seq<Step>, b: nat)
    requires OnlyOrs(steps) && b < BITS_PER_WORD
    ensures BitSet(Final(init, steps), b) <==>
            BitSet(init, b) || exists k :: 0 <= k < |steps| && InMask(steps[k].op, b)
  {
    if steps == [] {
    } else {
      var front, last := steps[..|steps| - 1], |steps| - 1;
      FlagsAccumulate(init, front, b);
      if steps[last].op.Or? { OperatorBits(Final(init, front), steps[last].op.mask, b); }
      if k :| 0 <= k < |front| && InMask(front[k].op, b) { assert InMask(steps[k].op, b); }
      if k :| 0 <= k < |steps| && InMask(steps[k].op, b) { assert k < last ==> front[k] == steps[k]; }
    }
  }

  predicate OnlyAnds(steps: seq<Step>) {
    forall k | 0 <= k < |steps| :: steps[k].op.And? || steps[k].op.Get?
  }

  /** Flags cleared with and stay cleared: a bit is left exactly when every call's mask keeps it. */
  lemma {:induction false} FlagsAreCleared(init: int32, steps: seq<Step>, b: nat)
    requires OnlyAnds(steps) && b < BITS_PER_WORD
    ensures BitSet(Final(init, steps), b) <==>
            BitSet(init, b) && forall k | 0 <= k < |steps| :: steps[k].op.Get? || InMask(steps[k].op, b)
  {
    if steps == [] {
    } else {
      var front, last := steps[..|steps| - 1], |steps| - 1;
      FlagsAreCleared(init, front, b);
      if steps[last].op.And? { OperatorBits(Final(init, front), steps[last].op.mask, b); }
      forall k | 0 <= k < last ensures front[k] == steps[k] {}
    }
  }

  predicate OnlyIncs(steps: seq<Step>) {
    forall k | 0 <= k < |steps| :: steps[k].op == Add(1)
  }

  lemma {:induction false} SumOfIncs(steps: seq<Step>)
    requires OnlyIncs(steps)
    ensures Sum(steps) == |steps|
  {
    if steps == [] {
    } else {
      SumOfIncs(steps[..|steps| - 1]);
    }
  }

  lemma Ticket(a: Ideal, k: nat)
    requires Matched(a) && OnlyIncs(a.steps) && k in a.returned
    ensures k < |a.steps| && a.returned[k] == Wrap(a.init + k)
  {
    var before := a.steps[..k];
    SumOfIncs(before);
    WordIsSumOfIncrements(a.init, before);
  }

  /** Two increments return the same value exactly when 2^32, or a multiple, separates their steps. */
  lemma TicketsCollideExactlyOnWrapAround(a: Ideal, j: nat, k: nat)
    requires Matched(a) && OnlyIncs(a.steps)
    requires j in a.returned && k in a.returned
    ensures a.returned[j] == a.returned[k] <==> (j - k) % MODULUS == 0
  {
    Ticket(a, j);
    Ticket(a, k);
    WrapEqual(a.init + j, a.init + k);
  }

  /** Up to 2^32 increments hand out pairwise distinct tickets. */
  lemma TicketsAreDistinct(a: Ideal, j: nat, k: nat)
    requires Matched(a) && OnlyIncs(a.steps) && |a.steps| <= MODULUS
    requires j in a.returned && k in a.returned && j != k
    ensures a.returned[j] != a.returned[k]
  {
    Ticket(a, j);
    Ticket(a, k);
    if Wrap(a.init + j) == Wrap(a.init + k) { WrapInjective(a.init + j, a.init + k); }
  }

  // ---- The same, for the steps of any accepted run ----

  ghost function AddsOnly(): iset<Op> { iset op: Op | op.Add? || op.Get? }
  ghost function OrsOnly(): iset<Op> { iset op: Op | op.Or? || op.Get? }

  /** A word changed only by add, inc and dec, and read by anyone. */
  lemma CounterRun(init: int32, n: nat, tr: seq<Event>)
    requires Accepts(Start(init, n), tr) && CallsWithin(tr, AddsOnly())
    ensures var steps := AdvanceAll(Start(init, n), tr).steps;
            OnlyAdds(steps) && Final(init, steps) == Wrap(init + Sum(steps))
  {
    StepsComeFromCalls(Start(init, n), tr, AddsOnly());
    WordIsSumOfIncrements(init, AdvanceAll(Start(init, n), tr).steps);
  }

  /** A word changed only by inc: two calls return the same value exactly when a multiple of 2^32
      separates their steps. */
  lemma TicketRun(init: int32, n: nat, tr: seq<Event>, j: nat, k: nat)
    requires Accepts(Start(init, n), tr) && CallsWithin(tr, iset{Add(1)})
    requires var a := AdvanceAll(Start(init, n), tr); j in a.returned && k in a.returned
    ensures var a := AdvanceAll(Start(init, n), tr);
            a.returned[j] == a.returned[k] <==> (j - k) % MODULUS == 0
  {
    AcceptsMatched(Start(init, n), tr);
    StepsComeFromCalls(Start(init, n), tr, iset{Add(1)});
    TicketsCollideExactlyOnWrapAround(AdvanceAll(Start(init, n), tr), j, k);
  }

  /** A word changed only by or, and read by anyone. */
  lemma FlagRun(init: int32, n: nat, tr: seq<Event>, b: nat)
    requires Accepts(Start(init, n), tr) && CallsWithin(tr, OrsOnly()) && b < BITS_PER_WORD
    ensures var steps := AdvanceAll(Start(init, n), tr).steps;
            OnlyOrs(steps) &&
            (BitSet(Final(init, steps), b) <==>
             BitSet(init, b) || exists k :: 0 <= k < |steps| && InMask(steps[k].op, b))
  {
    StepsComeFromCalls(Start(init, n), tr, OrsOnly());
    FlagsAccumulate(init, AdvanceAll(Start(init, n), tr).steps, b);
  }
}
