/** Any number of threads on one word over sequentially consistent memory, interleaved after every
    instruction, on arm, mips and arm64. A store-conditional may fail at any time, and fails if anybody
    wrote the word since. */
module AtomicMachine {
  import opened Int32
  import opened Words
  import opened AtomicSpec
  import opened AtomicCode

  /** x86 has store buffers: see TsoAtomics. */
  type ScArch = a: Arch | a != X86 witness Arm

  datatype System = System(word: int32, threads: seq<Thread>)

  datatype Action =
    | Call(t: nat, op: Op)
    | Run(t: nat, spurious: bool)   // one instruction; `spurious` makes a store-conditional fail
    | Return(t: nat)

  predicate Enabled(arch: ScArch, s: System, act: Action) {
    && act.t < |s.threads|
    && var th := s.threads[act.t];
       match act
       case Call(_, _) => th.Resting?
       case Run(_, _) => th.Busy? && th.pc < |Code(arch, th.op)|
       case Return(_) => th.Busy? && th.pc == |Code(arch, th.op)|
  }

  function Outcome(arch: ScArch, s: System, act: Action): Effect
    requires Enabled(arch, s, act) && act.Run?
  {
    var th := s.threads[act.t];
    Exec(Code(arch, th.op)[th.pc], th.op, th.pc, th.r, s.word, th.linked && !act.spurious)
  }

  function Step(arch: ScArch, s: System, act: Action): System
    requires Enabled(arch, s, act)
  {
    match act
    case Call(t, op) => s.(threads := s.threads[t := Busy(op, 0, Regs(0, 0, 0), false)])
    case Return(t) => s.(threads := s.threads[t := Resting])
    case Run(t, _) =>
      var th, e := s.threads[t], Outcome(arch, s, act);
      var i := Code(arch, th.op)[th.pc];
      var me := th.(pc := e.pc, r := e.r, linked := i.LoadLinked? || (th.linked && !IsStoreConditional(i)));
      if e.stores
      then System(e.val, seq(|s.threads|, u requires 0 <= u < |s.threads| =>
                                            if u == t then me else Unlink(s.threads[u])))
      else s.(threads := s.threads[t := me])
  }

  function Observe(arch: ScArch, s: System, act: Action): seq<Event>
    requires Enabled(arch, s, act)
  {
    match act
    case Call(t, op) => [Called(t, op)]
    case Return(t) => [Ended(t, ReturnValue(s.threads[t].op, s.threads[t].r))]
    case Run(t, _) =>
      var op, i := s.threads[t].op, Code(arch, s.threads[t].op)[s.threads[t].pc];
      if Takes(i, op, s.word, Outcome(arch, s, act).stores)
      then [Took(t)] else []
  }

  predicate Runs(arch: ScArch, s: System, acts: seq<Action>)
    decreases |acts|
  {
    acts == [] || (Enabled(arch, s, acts[0]) && Runs(arch, Step(arch, s, acts[0]), acts[1..]))
  }

  function After(arch: ScArch, s: System, acts: seq<Action>): System
    requires Runs(arch, s, acts)
    decreases |acts|
  {
    if acts == [] then s else After(arch, Step(arch, s, acts[0]), acts[1..])
  }

  function Trace(arch: ScArch, s: System, acts: seq<Action>): seq<Event>
    requires Runs(arch, s, acts)
    decreases |acts|
  {
    if acts == [] then []
    else Observe(arch, s, acts[0]) + Trace(arch, Step(arch, s, acts[0]), acts[1..])
  }

  predicate Initial(s: System) {
    forall t | 0 <= t < |s.threads| :: s.threads[t] == Resting
  }

  // ---- Why it refines the one-step-per-call machine ----

  ghost predicate Inv(arch: ScArch, s: System, a: Ideal) {
    && |s.threads| == |a.views|
    && s.word == Final(a.init, a.steps)
    && Matched(a)
    && forall t | 0 <= t < |s.threads| :: ThreadMatches(arch, s.threads[t], a.views[t], a, s.word)
  }

  lemma SilentRunRefines(arch: ScArch, s: System, a: Ideal, act: Action)
    requires Inv(arch, s, a) && Enabled(arch, s, act) && act.Run? && Observe(arch, s, act) == []
    ensures Inv(arch, Step(arch, s, act), a)
  {
    InstructionIsRight(arch, s.threads[act.t], s.word, s.threads[act.t].linked && !act.spurious);
  }

  lemma TakingRunRefines(arch: ScArch, s: System, a: Ideal, act: Action)
    requires Inv(arch, s, a) && Enabled(arch, s, act) && act.Run? && Observe(arch, s, act) == [Took(act.t)]
    ensures Permits(a, Took(act.t)) && Inv(arch, Step(arch, s, act), Advance(a, Took(act.t)))
  {
    var t, th := act.t, s.threads[act.t];
    InstructionIsRight(arch, th, s.word, th.linked && !act.spurious);
    var s', a' := Step(arch, s, act), Advance(a, Took(t));
    TookKeepsMatched(a, t);
    FinalAppend(a.init, a.steps, AtomicSpec.Step(t, th.op));
    forall u | 0 <= u < |s'.threads| ensures ThreadMatches(arch, s'.threads[u], a'.views[u], a', s'.word) {
      if u != t {
        OthersMatch(arch, s.threads[u], a.views[u], a, a', s.word, s'.word, Outcome(arch, s, act).stores);
      }
    }
  }

  lemma ReturnRefines(arch: ScArch, s: System, a: Ideal, t: nat)
    requires Inv(arch, s, a) && Enabled(arch, s, Return(t))
    ensures Permits(a, Ended(t, ReturnValue(s.threads[t].op, s.threads[t].r)))
    ensures Inv(arch, Step(arch, s, Return(t)), Advance(a, Ended(t, ReturnValue(s.threads[t].op, s.threads[t].r))))
  {
    assert a.views[t].k !in a.returned;
    AdvanceKeepsMatched(a, Ended(t, ReturnValue(s.threads[t].op, s.threads[t].r)));
  }

  lemma StepRefines(arch: ScArch, s: System, a: Ideal, act: Action)
    requires Inv(arch, s, a) && Enabled(arch, s, act)
    ensures Accepts(a, Observe(arch, s, act))
    ensures Inv(arch, Step(arch, s, act), AdvanceAll(a, Observe(arch, s, act)))
  {
    match act
    case Call(t, op) => AdvanceKeepsMatched(a, Called(t, op));
    case Run(t, _) =>
      if Observe(arch, s, act) == [] {
        SilentRunRefines(arch, s, a, act);
      } else {
        TakingRunRefines(arch, s, a, act);
        assert AdvanceAll(a, [Took(t)]) == Advance(a, Took(t));
      }
    case Return(t) => ReturnRefines(arch, s, a, t);
  }

  lemma {:induction false} RunsRefine(arch: ScArch, s: System, a: Ideal, acts: seq<Action>)
    requires Inv(arch, s, a) && Runs(arch, s, acts)
    ensures Accepts(a, Trace(arch, s, acts))
    ensures Inv(arch, After(arch, s, acts), AdvanceAll(a, Trace(arch, s, acts)))
    decreases |acts|
  {
    if acts == [] {
    } else {
      var e, s' := Observe(arch, s, acts[0]), Step(arch, s, acts[0]);
      StepRefines(arch, s, a, acts[0]);
      RunsRefine(arch, s', AdvanceAll(a, e), acts[1..]);
      AcceptsConcat(a, e, Trace(arch, s', acts[1..]));
    }
  }

  lemma Refinement(arch: ScArch, s: System, acts: seq<Action>)
    requires Initial(s) && Runs(arch, s, acts)
    ensures Accepts(Start(s.word, |s.threads|), Trace(arch, s, acts))
    ensures Inv(arch, After(arch, s, acts), AdvanceAll(Start(s.word, |s.threads|), Trace(arch, s, acts)))
  {
    RunsRefine(arch, s, Start(s.word, |s.threads|), acts);
  }

  /** The one-step-per-call machine after the same calls, steps and returns. */
  ghost function History(arch: ScArch, s: System, acts: seq<Action>): Ideal
    requires Initial(s) && Runs(arch, s, acts)
  {
    Refinement(arch, s, acts);
    AdvanceAll(Start(s.word, |s.threads|), Trace(arch, s, acts))
  }

  /** Linearizability: every run of any number of threads, with any interleaving and any
      store-conditional failures, is a run of the one-step-per-call machine; the word is the outcome of
      those steps, and each call that ended has its own step, between its call and its return, and
      returned the value computed from the word just before that step. */
  lemma EveryRunIsAtomicSteps(arch: ScArch, s: System, acts: seq<Action>)
    requires Initial(s) && Runs(arch, s, acts)
    ensures Accepts(Start(s.word, |s.threads|), Trace(arch, s, acts))
    ensures var a := History(arch, s, acts);
            After(arch, s, acts).word == Final(s.word, a.steps) && Matched(a) && a.init == s.word
  {
    Refinement(arch, s, acts);
    AcceptsMatched(Start(s.word, |s.threads|), Trace(arch, s, acts));
  }

  // ---- A thread that runs alone finishes ----

  /** k instructions of thread t in a row, without spurious failures. */
  function Solo(t: nat, k: nat): seq<Action> {
    seq(k, _ => Run(t, false))
  }

  /** Thread t is at the end of its call; what the call did to the word, and what it will return. */
  predicate Finished(arch: ScArch, s: System, s': System, t: nat)
    requires t < |s.threads| == |s'.threads| && s.threads[t].Busy?
    requires s.threads[t].pc <= |Code(arch, s.threads[t].op)|
  {
    var th, th' := s.threads[t], s'.threads[t];
    && th'.Busy? && th'.op == th.op && th'.pc == |Code(arch, th.op)|
    && if Done(arch, th.op, th.pc, th.r) then s'.word == s.word && th'.r.prev == th.r.prev
       else s'.word == NewValue(th.op, s.word) && (th.op.Put? || th'.r.prev == s.word)
  }

  lemma PrependRun(arch: ScArch, s: System, t: nat, k: nat)
    requires Enabled(arch, s, Run(t, false)) && Runs(arch, Step(arch, s, Run(t, false)), Solo(t, k))
    ensures Runs(arch, s, Solo(t, k + 1))
    ensures After(arch, s, Solo(t, k + 1)) == After(arch, Step(arch, s, Run(t, false)), Solo(t, k))
  {
    assert Solo(t, k + 1)[1..] == Solo(t, k);
  }

  lemma {:induction false} SoloRun(arch: ScArch, s: System, t: nat) returns (k: nat)
    requires t < |s.threads| && s.threads[t].Busy?
    requires var th := s.threads[t]; Consistent(arch, th.op, th.pc, th.r, th.linked, s.word)
    ensures k <= Remaining(arch, s.threads[t], s.word) && Runs(arch, s, Solo(t, k))
    ensures |After(arch, s, Solo(t, k)).threads| == |s.threads| && Finished(arch, s, After(arch, s, Solo(t, k)), t)
    decreases Remaining(arch, s.threads[t], s.word)
  {
    var th := s.threads[t];
    if th.pc == |Code(arch, th.op)| {
      k := 0;
    } else {
      var s' := Step(arch, s, Run(t, false));
      SoloInstruction(arch, th, s.word, s.word);
      var rest := SoloRun(arch, s', t);
      k := rest + 1;
      PrependRun(arch, s, t, rest);
    }
  }

  /** Obstruction freedom: from every reachable state, whatever pass a call is in, its thread needs at most
      two rounds of its code, when it runs alone, to be ready to return. A call that had not taken its
      step yet takes it now: the word is changed as the operation says, and the value returned is the one
      for the word found. */
  lemma SoloCompletes(arch: ScArch, s: System, acts: seq<Action>, t: nat) returns (k: nat)
    requires Initial(s) && Runs(arch, s, acts)
    requires t < |After(arch, s, acts).threads| && After(arch, s, acts).threads[t].Busy?
    ensures var s0 := After(arch, s, acts);
            var op := s0.threads[t].op;
            && k <= 2 * |Code(arch, op)|
            && Runs(arch, s0, Solo(t, k)) && Enabled(arch, After(arch, s0, Solo(t, k)), Return(t))
            && |History(arch, s, acts).views| == |s0.threads|
            && var s1, a := After(arch, s0, Solo(t, k)), History(arch, s, acts);
               match a.views[t]
               case Idle => false
               case Pending(o) =>
                 && o == op && s1.word == NewValue(op, s0.word)
                 && Observe(arch, s1, Return(t)) == [Ended(t, Returned(op, s0.word))]
               case Taken(o, j) =>
                 && o == op && s1.word == s0.word && j < |a.steps|
                 && Observe(arch, s1, Return(t)) == [Ended(t, Returned(op, Final(a.init, a.steps[..j])))]
  {
    Refinement(arch, s, acts);
    var s0, a := After(arch, s, acts), History(arch, s, acts);
    assert ThreadMatches(arch, s0.threads[t], a.views[t], a, s0.word);
    k := SoloRun(arch, s0, t);
  }

  /** A whole call by a thread that runs alone, from any state: one round of its code. */
  lemma LoneCall(arch: ScArch, s: System, t: nat, op: Op) returns (k: nat)
    requires t < |s.threads| && s.threads[t] == Resting
    ensures Enabled(arch, s, Call(t, op)) && k <= |Code(arch, op)|
    ensures var s1 := Step(arch, s, Call(t, op));
            && Runs(arch, s1, Solo(t, k)) && Enabled(arch, After(arch, s1, Solo(t, k)), Return(t))
            && var s2 := After(arch, s1, Solo(t, k));
               && s2.word == NewValue(op, s.word)
               && Observe(arch, s2, Return(t)) == [Ended(t, Returned(op, s.word))]
               && Step(arch, s2, Return(t)).threads[t] == Resting
  {
    k := SoloRun(arch, Step(arch, s, Call(t, op)), t);
  }

  lemma WordIsOutcome(arch: ScArch, s: System, acts: seq<Action>)
    requires Initial(s) && Runs(arch, s, acts)
    ensures After(arch, s, acts).word == Final(s.word, History(arch, s, acts).steps)
  {
    EveryRunIsAtomicSteps(arch, s, acts);
  }

  ghost predicate CallsOnly(acts: seq<Action>, ops: iset<Op>) {
    forall k | 0 <= k < |acts| && acts[k].Call? :: acts[k].op in ops
  }

  lemma {:induction false} CallsAreCalled(arch: ScArch, s: System, acts: seq<Action>, ops: iset<Op>)
    requires Runs(arch, s, acts) && CallsOnly(acts, ops)
    ensures CallsWithin(Trace(arch, s, acts), ops)
    decreases |acts|
  {
    if acts == [] {
    } else {
      CallsAreCalled(arch, Step(arch, s, acts[0]), acts[1..], ops);
    }
  }

  lemma StepsAreCalls(arch: ScArch, s: System, acts: seq<Action>, ops: iset<Op>)
    requires Initial(s) && Runs(arch, s, acts) && CallsOnly(acts, ops)
    ensures Accepts(Start(s.word, |s.threads|), Trace(arch, s, acts))
    ensures CallsWithin(Trace(arch, s, acts), ops)
  {
    Refinement(arch, s, acts);
    CallsAreCalled(arch, s, acts, ops);
  }

  /** On each of these architectures a word changed only by add, inc and dec holds its initial value plus
      the increments that took effect, modulo 2^32. */
  lemma CountersCount(arch: ScArch, s: System, acts: seq<Action>)
    requires Initial(s) && Runs(arch, s, acts)
    requires CallsOnly(acts, AddsOnly())
    ensures var steps := History(arch, s, acts).steps;
            OnlyAdds(steps) && After(arch, s, acts).word == Wrap(s.word + Sum(steps))
  {
    WordIsOutcome(arch, s, acts);
    StepsAreCalls(arch, s, acts, AddsOnly());
    CounterRun(s.word, |s.threads|, Trace(arch, s, acts));
  }

  /** With inc alone, two calls are handed the same previous value exactly when a multiple of 2^32 other
      calls separates them. */
  lemma IncsReturnDistinctValues(arch: ScArch, s: System, acts: seq<Action>, j: nat, k: nat)
    requires Initial(s) && Runs(arch, s, acts)
    requires CallsOnly(acts, iset{Add(1)})
    requires var a := History(arch, s, acts); j in a.returned && k in a.returned
    ensures var a := History(arch, s, acts);
            a.returned[j] == a.returned[k] <==> (j - k) % MODULUS == 0
  {
    StepsAreCalls(arch, s, acts, iset{Add(1)});
    TicketRun(s.word, |s.threads|, Trace(arch, s, acts), j, k);
  }

  /** Flags set with or are never lost: in a word changed only by or, a bit is set exactly when it was at
      the start or is in the mask of a call that took effect. */
  lemma FlagsAreNeverLost(arch: ScArch, s: System, acts: seq<Action>, b: nat)
    requires Initial(s) && Runs(arch, s, acts) && b < BITS_PER_WORD
    requires CallsOnly(acts, OrsOnly())
    ensures var steps := History(arch, s, acts).steps;
            OnlyOrs(steps) &&
            (BitSet(After(arch, s, acts).word, b) <==>
             BitSet(s.word, b) || exists k :: 0 <= k < |steps| && InMask(steps[k].op, b))
  {
    WordIsOutcome(arch, s, acts);
    StepsAreCalls(arch, s, acts, OrsOnly());
    FlagRun(s.word, |s.threads|, Trace(arch, s, acts), b);
  }
}
