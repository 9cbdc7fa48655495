/** The x86 operations on one word under x86-TSO, by any number of processors: cas, add, and, or as in
    `AtomicCode`, android_atomic_release_store as a plain store that reaches memory later, and
    android_atomic_acquire_load as a plain load that may be forwarded from the own buffer. Between any two
    instructions buffers drain and anybody executes anything on other words. */
module TsoAtomics {
  import opened Int32
  import opened Words
  import opened AtomicSpec
  import opened AtomicCode
  import opened Options
  import Tso

  datatype System = System(hw: Tso.State, threads: seq<Thread>)

  datatype Action =
    | Call(t: nat, op: Op)
    | Run(t: nat)
    | Return(t: nat)
    | Post(t: nat, v: int32)             // android_atomic_release_store
    | Peek(t: nat)                       // android_atomic_acquire_load
    | Unrelated(t: nat, i: Tso.Instr)    // includes the mfence that completes android_atomic_acquire_store
    | Drain(t: nat)

  /** The hardware instruction behind one instruction of an operation; the loop tests touch no memory. */
  function Hardware(w: Tso.Addr, i: Instr, op: Op, r: Regs): Option<Tso.Instr> {
    match i
    case Load => Some(Tso.Load(w))
    case CasPrev => Some(Tso.LockCmpxchg(w, r.prev, NewValue(op, r.prev)))
    case LockedCmpxchg => if op.Cas? then Some(Tso.LockCmpxchg(w, op.old_, op.new_)) else None
    case LockedXadd => if op.Add? then Some(Tso.LockXadd(w, op.inc)) else None
    case _ => None
  }

  predicate Calls(th: Thread) {
    th.Busy? && HasCode(X86, th.op)
  }

  function Next(w: Tso.Addr, th: Thread): Option<Tso.Instr>
    requires Calls(th) && th.pc < |Code(X86, th.op)|
  {
    Hardware(w, Code(X86, th.op)[th.pc], th.op, th.r)
  }

  ghost predicate Enabled(w: Tso.Addr, s: System, act: Action) {
    && act.t < |s.threads| == |s.hw.bufs|
    && var th := s.threads[act.t];
       match act
       case Call(_, op) => th.Resting? && HasCode(X86, op)
       case Run(t) =>
         && Calls(th) && th.pc < |Code(X86, th.op)|
         && (Next(w, th).Some? ==> Tso.Enabled(s.hw, t, Next(w, th).value))
       case Return(_) => Calls(th) && th.pc == |Code(X86, th.op)|
       case Post(_, _) => th.Resting?
       case Peek(_) => th.Resting?
       case Unrelated(t, i) => Tso.Avoids(i, iset{w}) && Tso.Enabled(s.hw, t, i)
       case Drain(t) => Tso.CanFlush(s.hw, t)
  }

  /** What the instruction reads from the machine. */
  ghost function Seen(w: Tso.Addr, s: System, t: nat): int32
    requires Enabled(w, s, Run(t))
  {
    var n := Next(w, s.threads[t]);
    if n.Some? then Tso.Result(s.hw, t, n.value) else 0
  }

  ghost function Outcome(w: Tso.Addr, s: System, t: nat): Effect
    requires Enabled(w, s, Run(t))
  {
    var th := s.threads[t];
    Exec(Code(X86, th.op)[th.pc], th.op, th.pc, th.r, Seen(w, s, t), false)
  }

  ghost function Step(w: Tso.Addr, s: System, act: Action): System
    requires Enabled(w, s, act)
  {
    match act
    case Call(t, op) => s.(threads := s.threads[t := Busy(op, 0, Regs(0, 0, 0), false)])
    case Return(t) => s.(threads := s.threads[t := Resting])
    case Run(t) =>
      var th, e := s.threads[t], Outcome(w, s, t);
      System(if Next(w, th).Some? then Tso.Exec(s.hw, t, Next(w, th).value) else s.hw,
             s.threads[t := th.(pc := e.pc, r := e.r)])
    case Post(t, v) => s.(hw := Tso.Exec(s.hw, t, Tso.ReleaseStore(v, w)[0]))
    case Peek(t) => s.(hw := Tso.Exec(s.hw, t, Tso.AcquireLoad(w)[0]))
    case Unrelated(t, i) => s.(hw := Tso.Exec(s.hw, t, i))
    case Drain(t) => s.(hw := Tso.Flush(s.hw, t))
  }

  /** The values of the stores to `a` in a buffer, oldest first. */
  function Values(buf: Tso.Buffer, a: Tso.Addr): seq<int32> {
    if buf == [] then []
    else Values(buf[..|buf| - 1], a) + if buf[|buf| - 1].addr == a then [buf[|buf| - 1].val] else []
  }

  /** `Core` events are those of the one-step-per-call machine; a load that finds no own store is a call
      of its own there. */
  datatype XEvent =
    | Core(e: Event)
    | Posted(t: nat, v: int32)
    | Forwarded(t: nat, v: int32)

  ghost function Observe(w: Tso.Addr, s: System, act: Action): seq<XEvent>
    requires Enabled(w, s, act)
  {
    match act
    case Call(t, op) => [Core(Called(t, op))]
    case Return(t) => [Core(Ended(t, ReturnValue(s.threads[t].op, s.threads[t].r)))]
    case Run(t) =>
      var th := s.threads[t];
      if Takes(Code(X86, th.op)[th.pc], th.op, Seen(w, s, t), Outcome(w, s, t).stores)
      then [Core(Took(t))] else []
    case Post(t, v) => [Posted(t, v)]
    case Peek(t) =>
      var v := Tso.Result(s.hw, t, Tso.AcquireLoad(w)[0]);
      if Values(s.hw.bufs[t], w) != [] then [Forwarded(t, v)]
      else [Core(Called(t, Get)), Core(Took(t)), Core(Ended(t, v))]
    case Unrelated(_, _) => []
    case Drain(t) =>
      var front := s.hw.bufs[t][0];
      if front.addr == w then [Core(Landed(t, front.val))] else []
  }

  ghost predicate Runs(w: Tso.Addr, s: System, acts: seq<Action>)
    decreases |acts|
  {
    acts == [] || (Enabled(w, s, acts[0]) && Runs(w, Step(w, s, acts[0]), acts[1..]))
  }

  ghost function After(w: Tso.Addr, s: System, acts: seq<Action>): System
    requires Runs(w, s, acts)
    decreases |acts|
  {
    if acts == [] then s else After(w, Step(w, s, acts[0]), acts[1..])
  }

  ghost function Trace(w: Tso.Addr, s: System, acts: seq<Action>): seq<XEvent>
    requires Runs(w, s, acts)
    decreases |acts|
  {
    if acts == [] then []
    else Observe(w, s, acts[0]) + Trace(w, Step(w, s, acts[0]), acts[1..])
  }

  predicate Initial(s: System) {
    && |s.threads| == |s.hw.bufs|
    && forall t | 0 <= t < |s.threads| :: s.threads[t] == Resting && s.hw.bufs[t] == []
  }

  // ---- One step per call, and posted stores that land in order ----

  /** `posted[t]`: stores that t has issued and that have not taken effect yet. */
  datatype XIdeal = XIdeal(core: Ideal, posted: seq<seq<int32>>)

  predicate XPermits(a: XIdeal, x: XEvent) {
    match x
    case Core(e) =>
      && Permits(a.core, e) && e.t < |a.posted|
      && (e.Took? ==> a.posted[e.t] == [])
      && (e.Landed? ==> a.posted[e.t] != [] && a.posted[e.t][0] == e.v)
    case Posted(t, _) => t < |a.posted|
    case Forwarded(t, v) => t < |a.posted| && a.posted[t] != [] && a.posted[t][|a.posted[t]| - 1] == v
  }

  function XAdvance(a: XIdeal, x: XEvent): XIdeal
    requires XPermits(a, x)
  {
    match x
    case Core(e) =>
      XIdeal(Advance(a.core, e), if e.Landed? then a.posted[e.t := a.posted[e.t][1..]] else a.posted)
    case Posted(t, v) => a.(posted := a.posted[t := a.posted[t] + [v]])
    case Forwarded(_, _) => a
  }

  predicate XAccepts(a: XIdeal, tr: seq<XEvent>)
    decreases |tr|
  {
    tr == [] || (XPermits(a, tr[0]) && XAccepts(XAdvance(a, tr[0]), tr[1..]))
  }

  function XAdvanceAll(a: XIdeal, tr: seq<XEvent>): XIdeal
    requires XAccepts(a, tr)
    decreases |tr|
  {
    if tr == [] then a else XAdvanceAll(XAdvance(a, tr[0]), tr[1..])
  }

  function XStart(init: int32, n: nat): XIdeal {
    XIdeal(Start(init, n), seq(n, _ => []))
  }

  lemma PrependXEvent(a: XIdeal, x: XEvent, tr: seq<XEvent>)
    requires XPermits(a, x) && XAccepts(XAdvance(a, x), tr)
    ensures XAccepts(a, [x] + tr) && XAdvanceAll(a, [x] + tr) == XAdvanceAll(XAdvance(a, x), tr)
  {
    assert ([x] + tr)[1..] == tr;
  }

  lemma {:induction false} XAcceptsConcat(a: XIdeal, tr: seq<XEvent>, ts: seq<XEvent>)
    requires XAccepts(a, tr) && XAccepts(XAdvanceAll(a, tr), ts)
    ensures XAccepts(a, tr + ts)
    ensures XAdvanceAll(a, tr + ts) == XAdvanceAll(XAdvanceAll(a, tr), ts)
    decreases |tr|
  {
    if tr == [] {
      assert tr + ts == ts;
    } else {
      XAcceptsConcat(XAdvance(a, tr[0]), tr[1..], ts);
      PrependXEvent(a, tr[0], tr[1..] + ts);
      assert [tr[0]] + (tr[1..] + ts) == tr + ts;
    }
  }

  lemma OneXEvent(a: XIdeal, x: XEvent)
    requires XPermits(a, x)
    ensures XAccepts(a, [x]) && XAdvanceAll(a, [x]) == XAdvance(a, x)
  {
    var tr := [x];
    assert tr[1..] == [];
  }

  /** Forgetting the posting and forwarding leaves a run of the one-step-per-call machine. */
  function CoreEvents(tr: seq<XEvent>): seq<Event>
    decreases |tr|
  {
    if tr == [] then [] else (if tr[0].Core? then [tr[0].e] else []) + CoreEvents(tr[1..])
  }

  lemma {:induction false} CoreIsAccepted(a: XIdeal, tr: seq<XEvent>)
    requires XAccepts(a, tr)
    ensures Accepts(a.core, CoreEvents(tr))
    ensures AdvanceAll(a.core, CoreEvents(tr)) == XAdvanceAll(a, tr).core
    decreases |tr|
  {
    if tr == [] {
    } else {
      CoreIsAccepted(XAdvance(a, tr[0]), tr[1..]);
      if tr[0].Core? {
        assert CoreEvents(tr)[1..] == CoreEvents(tr[1..]);
      } else {
        assert CoreEvents(tr) == CoreEvents(tr[1..]);
      }
    }
  }

  // ---- Why the machine refines it ----

  lemma ValuesAppend(buf: Tso.Buffer, x: Tso.Write, a: Tso.Addr)
    ensures Values(buf + [x], a) == Values(buf, a) + if x.addr == a then [x.val] else []
  {
    assert (buf + [x])[..|buf|] == buf;
  }

  lemma {:induction false} ValuesOldest(buf: Tso.Buffer, a: Tso.Addr)
    requires buf != []
    ensures Values(buf, a) == (if buf[0].addr == a then [buf[0].val] else []) + Values(buf[1..], a)
  {
    if |buf| == 1 {
      assert buf[..0] == [] && buf[1..] == [];
    } else {
      var front := buf[..|buf| - 1];
      ValuesOldest(front, a);
      assert buf[1..][..|buf| - 2] == front[1..];
    }
  }

  lemma {:induction false} LookupValues(buf: Tso.Buffer, m: Tso.Memory, a: Tso.Addr)
    ensures Tso.Lookup(buf, m, a) ==
            if Values(buf, a) == [] then Tso.Read(m, a) else Values(buf, a)[|Values(buf, a)| - 1]
  {
    if buf == [] {
    } else {
      LookupValues(buf[..|buf| - 1], m, a);
    }
  }

  ghost predicate PostedMatch(w: Tso.Addr, bufs: seq<Tso.Buffer>, posted: seq<seq<int32>>) {
    |bufs| == |posted| && forall t | 0 <= t < |bufs| :: posted[t] == Values(bufs[t], w)
  }

  ghost predicate ThreadsMatch(threads: seq<Thread>, a: Ideal) {
    |threads| == |a.views| && forall t | 0 <= t < |threads| :: ThreadMatches(X86, threads[t], a.views[t], a, 0)
  }

  ghost predicate Inv(w: Tso.Addr, s: System, a: XIdeal) {
    && |s.threads| == |s.hw.bufs|
    && Tso.Read(s.hw.mem, w) == Final(a.core.init, a.core.steps)
    && Matched(a.core)
    && PostedMatch(w, s.hw.bufs, a.posted)
    && ThreadsMatch(s.threads, a.core)
  }

  /** One thread moves, the history at most grows. */
  lemma OneThreadMoves(threads: seq<Thread>, a: Ideal, a': Ideal, me: nat, th: Thread, v: View)
    requires ThreadsMatch(threads, a) && me < |threads|
    requires a'.init == a.init && |a.steps| <= |a'.steps| && a'.steps[..|a.steps|] == a.steps
    requires a'.views == a.views[me := v] && ThreadMatches(X86, th, v, a', 0)
    ensures ThreadsMatch(threads[me := th], a')
  {
    forall t | 0 <= t < |threads| && t != me ensures ThreadMatches(X86, threads[t], a'.views[t], a', 0) {
      OthersMatch(X86, threads[t], a.views[t], a, a', 0, 0, false);
    }
  }

  lemma NoThreadMoves(threads: seq<Thread>, a: Ideal, a': Ideal)
    requires ThreadsMatch(threads, a) && a'.views == a.views
    requires a'.init == a.init && |a.steps| <= |a'.steps| && a'.steps[..|a.steps|] == a.steps
    ensures ThreadsMatch(threads, a')
  {
    forall t | 0 <= t < |threads| ensures ThreadMatches(X86, threads[t], a'.views[t], a', 0) {
      OthersMatch(X86, threads[t], a.views[t], a, a', 0, 0, false);
    }
  }

  lemma PostedEnters(w: Tso.Addr, bufs: seq<Tso.Buffer>, posted: seq<seq<int32>>, t: nat, x: Tso.Write)
    requires PostedMatch(w, bufs, posted) && t < |bufs|
    ensures PostedMatch(w, bufs[t := bufs[t] + [x]], if x.addr == w then posted[t := posted[t] + [x.val]] else posted)
  {
    ValuesAppend(bufs[t], x, w);
    OneBufferChanges(w, bufs, posted, t, bufs[t] + [x]);
    var values := posted[t];
    assert x.addr != w ==> Values(bufs[t] + [x], w) == values && posted[t := values] == posted;
  }

  lemma OneBufferChanges(w: Tso.Addr, bufs: seq<Tso.Buffer>, posted: seq<seq<int32>>, t: nat, buf: Tso.Buffer)
    requires PostedMatch(w, bufs, posted) && t < |bufs|
    ensures PostedMatch(w, bufs[t := buf], posted[t := Values(buf, w)])
  {
    var bufs', posted' := bufs[t := buf], posted[t := Values(buf, w)];
    forall u | 0 <= u < |bufs| ensures posted'[u] == Values(bufs'[u], w) {
      if u != t { assert bufs'[u] == bufs[u]; }
    }
  }

  lemma PostedDrains(w: Tso.Addr, bufs: seq<Tso.Buffer>, posted: seq<seq<int32>>, t: nat)
    requires PostedMatch(w, bufs, posted) && t < |bufs| && bufs[t] != []
    ensures bufs[t][0].addr == w ==> posted[t] != [] && posted[t][0] == bufs[t][0].val
    ensures PostedMatch(w, bufs[t := bufs[t][1..]],
                        if bufs[t][0].addr == w then posted[t := posted[t][1..]] else posted)
  {
    var values := Values(bufs[t], w);
    ValuesOldest(bufs[t], w);
    OneBufferChanges(w, bufs, posted, t, bufs[t][1..]);
    assert posted[t] == values;
    assert bufs[t][0].addr == w ==> values[1..] == Values(bufs[t][1..], w);
    assert bufs[t][0].addr != w ==> posted[t := values] == posted;
  }

  /** Only locked instructions take the step of a call; they find the own buffer empty and the word as it
      is in memory. */
  lemma HardwareStep(w: Tso.Addr, s: System, t: nat)
    requires Enabled(w, s, Run(t))
    ensures var th, e, hw := s.threads[t], Outcome(w, s, t), Step(w, s, Run(t)).hw;
            && hw.bufs == s.hw.bufs
            && Tso.Read(hw.mem, w) == (if e.stores then e.val else Tso.Read(s.hw.mem, w))
            && (Takes(Code(X86, th.op)[th.pc], th.op, Seen(w, s, t), e.stores) ==>
                  s.hw.bufs[t] == [] && Seen(w, s, t) == Tso.Read(s.hw.mem, w))
  {
  }

  /** The thread that runs, after an instruction that is not its call's step, and after one that is. */
  lemma RunThread(th: Thread, a: Ideal, t: nat, seen: int32)
    requires Calls(th) && th.pc < |Code(X86, th.op)|
    requires t < |a.views| && ThreadMatches(X86, th, a.views[t], a, 0)
    ensures var i := Code(X86, th.op)[th.pc];
            var e := Exec(i, th.op, th.pc, th.r, seen, false);
            var th' := th.(pc := e.pc, r := e.r);
            if Takes(i, th.op, seen, e.stores)
            then && a.views[t] == Pending(th.op) && (if e.stores then e.val else seen) == NewValue(th.op, seen)
                 && (seen == Final(a.init, a.steps) ==>
                       var a' := Advance(a, Took(t)); ThreadMatches(X86, th', a'.views[t], a', 0))
            else !e.stores && ThreadMatches(X86, th', a.views[t], a, 0)
  {
    InstructionIsRight(X86, th, seen, false);
    if a.views[t].Pending? { assert Advance(a, Took(t)).steps[..|a.steps|] == a.steps; }
  }

  lemma RunRefines(w: Tso.Addr, s: System, a: XIdeal, t: nat)
    requires Inv(w, s, a) && Enabled(w, s, Run(t))
    ensures XAccepts(a, Observe(w, s, Run(t)))
    ensures Inv(w, Step(w, s, Run(t)), XAdvanceAll(a, Observe(w, s, Run(t))))
  {
    var th, e, seen := s.threads[t], Outcome(w, s, t), Seen(w, s, t);
    var th' := th.(pc := e.pc, r := e.r);
    HardwareStep(w, s, t);
    RunThread(th, a.core, t, seen);
    if Takes(Code(X86, th.op)[th.pc], th.op, seen, e.stores) {
      assert a.posted[t] == Values([], w);
      OneXEvent(a, Core(Took(t)));
      var c := Advance(a.core, Took(t));
      TookKeepsMatched(a.core, t);
      FinalAppend(a.core.init, a.core.steps, AtomicSpec.Step(t, th.op));
      OneThreadMoves(s.threads, a.core, c, t, th', c.views[t]);
    } else {
      assert a.core.views[t := a.core.views[t]] == a.core.views;
      OneThreadMoves(s.threads, a.core, a.core, t, th', a.core.views[t]);
    }
  }

  lemma ReturnRefines(w: Tso.Addr, s: System, a: XIdeal, t: nat)
    requires Inv(w, s, a) && Enabled(w, s, Return(t))
    ensures XAccepts(a, Observe(w, s, Return(t)))
    ensures Inv(w, Step(w, s, Return(t)), XAdvanceAll(a, Observe(w, s, Return(t))))
  {
    var e := Ended(t, ReturnValue(s.threads[t].op, s.threads[t].r));
    assert ThreadMatches(X86, s.threads[t], a.core.views[t], a.core, 0);
    assert a.core.views[t].k !in a.core.returned;
    AdvanceKeepsMatched(a.core, e);
    OneXEvent(a, Core(e));
    OneThreadMoves(s.threads, a.core, Advance(a.core, e), t, Resting, Idle);
  }

  lemma CallRefines(w: Tso.Addr, s: System, a: XIdeal, t: nat, op: Op)
    requires Inv(w, s, a) && Enabled(w, s, Call(t, op))
    ensures XAccepts(a, Observe(w, s, Call(t, op)))
    ensures Inv(w, Step(w, s, Call(t, op)), XAdvanceAll(a, Observe(w, s, Call(t, op))))
  {
    var e := Called(t, op);
    assert ThreadMatches(X86, s.threads[t], a.core.views[t], a.core, 0);
    AdvanceKeepsMatched(a.core, e);
    OneXEvent(a, Core(e));
    OneThreadMoves(s.threads, a.core, Advance(a.core, e), t, Busy(op, 0, Regs(0, 0, 0), false), Pending(op));
  }

  lemma PostRefines(w: Tso.Addr, s: System, a: XIdeal, t: nat, v: int32)
    requires Inv(w, s, a) && Enabled(w, s, Post(t, v))
    ensures XAccepts(a, Observe(w, s, Post(t, v)))
    ensures Inv(w, Step(w, s, Post(t, v)), XAdvanceAll(a, Observe(w, s, Post(t, v))))
  {
    PostedEnters(w, s.hw.bufs, a.posted, t, Tso.Write(w, v));
    OneXEvent(a, Posted(t, v));
  }

  lemma ThreeEvents(a: XIdeal, t: nat, v: int32)
    requires t < |a.posted| && a.posted[t] == [] && Permits(a.core, Called(t, Get))
    requires Permits(Advance(a.core, Called(t, Get)), Took(t))
    requires var c2 := Advance(Advance(a.core, Called(t, Get)), Took(t)); Permits(c2, Ended(t, v))
    ensures var tr := [Core(Called(t, Get)), Core(Took(t)), Core(Ended(t, v))];
            && XAccepts(a, tr)
            && XAdvanceAll(a, tr) ==
               a.(core := Advance(Advance(Advance(a.core, Called(t, Get)), Took(t)), Ended(t, v)))
  {
    var x0, x1, x2 := Core(Called(t, Get)), Core(Took(t)), Core(Ended(t, v));
    var a1 := XAdvance(a, x0);
    var a2 := XAdvance(a1, x1);
    OneXEvent(a2, x2);
    PrependXEvent(a1, x1, [x2]);
    PrependXEvent(a, x0, [x1] + [x2]);
    assert [x0] + ([x1] + [x2]) == [x0, x1, x2];
  }

  /** A whole load at once, and a store that lands: the word, the calls and the threads still match. */
  lemma LoadGrows(threads: seq<Thread>, a: Ideal, t: nat, word: int32) returns (a': Ideal)
    requires Matched(a) && ThreadsMatch(threads, a) && t < |threads| && threads[t] == Resting
    requires word == Final(a.init, a.steps)
    ensures Permits(a, Called(t, Get)) && Permits(Advance(a, Called(t, Get)), Took(t))
    ensures var a2 := Advance(Advance(a, Called(t, Get)), Took(t));
            Permits(a2, Ended(t, word)) && a' == Advance(a2, Ended(t, word))
    ensures Matched(a') && ThreadsMatch(threads, a') && word == Final(a'.init, a'.steps)
  {
    assert ThreadMatches(X86, threads[t], a.views[t], a, 0);
    a' := InstantCall(a, t, Get);
    FinalAppend(a.init, a.steps, AtomicSpec.Step(t, Get));
    NoThreadMoves(threads, a, a');
  }

  lemma StoreGrows(threads: seq<Thread>, a: Ideal, t: nat, v: int32)
    requires Matched(a) && ThreadsMatch(threads, a) && t < |threads|
    ensures Permits(a, Landed(t, v))
    ensures var a' := Advance(a, Landed(t, v));
            Matched(a') && ThreadsMatch(threads, a') && v == Final(a'.init, a'.steps)
  {
    assert |a.steps| !in a.returned;
    LandedKeepsMatched(a, t, v);
    FinalAppend(a.init, a.steps, AtomicSpec.Step(t, Put(v)));
    NoThreadMoves(threads, a, Advance(a, Landed(t, v)));
  }

  /** A load of the word is a call with its own step, unless the processor reads its own store. */
  lemma PeekRefines(w: Tso.Addr, s: System, a: XIdeal, t: nat)
    requires Inv(w, s, a) && Enabled(w, s, Peek(t))
    ensures XAccepts(a, Observe(w, s, Peek(t)))
    ensures Inv(w, Step(w, s, Peek(t)), XAdvanceAll(a, Observe(w, s, Peek(t))))
  {
    LookupValues(s.hw.bufs[t], s.hw.mem, w);
    assert a.posted[t] == Values(s.hw.bufs[t], w);
    if Values(s.hw.bufs[t], w) == [] {
      var _ := LoadGrows(s.threads, a.core, t, Tso.Read(s.hw.mem, w));
      ThreeEvents(a, t, Tso.Read(s.hw.mem, w));
    } else {
      OneXEvent(a, Forwarded(t, Tso.Result(s.hw, t, Tso.AcquireLoad(w)[0])));
    }
  }

  lemma UnrelatedRefines(w: Tso.Addr, s: System, a: XIdeal, t: nat, i: Tso.Instr)
    requires Inv(w, s, a) && Enabled(w, s, Unrelated(t, i))
    ensures Inv(w, Step(w, s, Unrelated(t, i)), a)
  {
    if i.Store? { PostedEnters(w, s.hw.bufs, a.posted, t, Tso.Write(i.a, i.v)); }
  }

  lemma DrainRefines(w: Tso.Addr, s: System, a: XIdeal, t: nat)
    requires Inv(w, s, a) && Enabled(w, s, Drain(t))
    ensures XAccepts(a, Observe(w, s, Drain(t)))
    ensures Inv(w, Step(w, s, Drain(t)), XAdvanceAll(a, Observe(w, s, Drain(t))))
  {
    var front := s.hw.bufs[t][0];
    PostedDrains(w, s.hw.bufs, a.posted, t);
    if front.addr == w {
      StoreGrows(s.threads, a.core, t, front.val);
      OneXEvent(a, Core(Landed(t, front.val)));
    }
  }

  lemma StepRefines(w: Tso.Addr, s: System, a: XIdeal, act: Action)
    requires Inv(w, s, a) && Enabled(w, s, act)
    ensures XAccepts(a, Observe(w, s, act))
    ensures Inv(w, Step(w, s, act), XAdvanceAll(a, Observe(w, s, act)))
  {
    match act
    case Call(t, op) => CallRefines(w, s, a, t, op);
    case Run(t) => RunRefines(w, s, a, t);
    case Return(t) => ReturnRefines(w, s, a, t);
    case Post(t, v) => PostRefines(w, s, a, t, v);
    case Peek(t) => PeekRefines(w, s, a, t);
    case Unrelated(t, i) => UnrelatedRefines(w, s, a, t, i);
    case Drain(t) => DrainRefines(w, s, a, t);
  }

  lemma {:induction false} RunsRefine(w: Tso.Addr, s: System, a: XIdeal, acts: seq<Action>)
    requires Inv(w, s, a) && Runs(w, s, acts)
    ensures XAccepts(a, Trace(w, s, acts))
    ensures Inv(w, After(w, s, acts), XAdvanceAll(a, Trace(w, s, acts)))
    decreases |acts|
  {
    if acts == [] {
    } else {
      var e, s' := Observe(w, s, acts[0]), Step(w, s, acts[0]);
      StepRefines(w, s, a, acts[0]);
      RunsRefine(w, s', XAdvanceAll(a, e), acts[1..]);
      XAcceptsConcat(a, e, Trace(w, s', acts[1..]));
    }
  }

  // ---- What clients get ----

  lemma Refinement(w: Tso.Addr, s: System, acts: seq<Action>)
    requires Initial(s) && Runs(w, s, acts)
    ensures var a0 := XStart(Tso.Read(s.hw.mem, w), |s.threads|);
            && XAccepts(a0, Trace(w, s, acts))
            && Inv(w, After(w, s, acts), XAdvanceAll(a0, Trace(w, s, acts)))
            && Accepts(a0.core, CoreEvents(Trace(w, s, acts)))
            && AdvanceAll(a0.core, CoreEvents(Trace(w, s, acts))) == XAdvanceAll(a0, Trace(w, s, acts)).core
  {
    var a0 := XStart(Tso.Read(s.hw.mem, w), |s.threads|);
    RunsRefine(w, s, a0, acts);
    CoreIsAccepted(a0, Trace(w, s, acts));
  }

  /** The one-step-per-call machine after the same calls, steps, returns and landed stores. */
  ghost function History(w: Tso.Addr, s: System, acts: seq<Action>): Ideal
    requires Initial(s) && Runs(w, s, acts)
  {
    Refinement(w, s, acts);
    AdvanceAll(Start(Tso.Read(s.hw.mem, w), |s.threads|), CoreEvents(Trace(w, s, acts)))
  }

  /** x86-TSO, any number of processors, any run: each cas, add, and, or is one step on memory between its
      call and its return, after every store its processor had issued before; each release_store takes
      effect once, in the order its processor issued them, possibly after it returned; a load returns the
      processor's last store that has not landed, or else the word. */
  lemma EveryRunIsAtomicSteps(w: Tso.Addr, s: System, acts: seq<Action>)
    requires Initial(s) && Runs(w, s, acts)
    ensures XAccepts(XStart(Tso.Read(s.hw.mem, w), |s.threads|), Trace(w, s, acts))
    ensures Accepts(Start(Tso.Read(s.hw.mem, w), |s.threads|), CoreEvents(Trace(w, s, acts)))
    ensures var a := History(w, s, acts);
            && Tso.Read(After(w, s, acts).hw.mem, w) == Final(a.init, a.steps)
            && Matched(a) && a.init == Tso.Read(s.hw.mem, w)
  {
    Refinement(w, s, acts);
    AcceptsMatched(Start(Tso.Read(s.hw.mem, w), |s.threads|), CoreEvents(Trace(w, s, acts)));
  }

  // ---- A processor that runs alone finishes ----

  function Drains(t: nat, k: nat): seq<Action> {
    seq(k, _ => Drain(t))
  }

  function Solo(t: nat, k: nat): seq<Action> {
    seq(k, _ => Run(t))
  }

  /** What processor t sees at the word. */
  function OwnView(w: Tso.Addr, s: System, t: nat): int32
    requires t < |s.hw.bufs|
  {
    Tso.Lookup(s.hw.bufs[t], s.hw.mem, w)
  }

  /** Draining the own buffer brings the own view of the word to memory. */
  lemma {:induction false} DrainsOut(w: Tso.Addr, s: System, t: nat, k: nat)
    requires t < |s.threads| == |s.hw.bufs| && k == |s.hw.bufs[t]|
    ensures Runs(w, s, Drains(t, k))
    ensures var s' := After(w, s, Drains(t, k));
            && s'.threads == s.threads && |s'.hw.bufs| == |s.hw.bufs| && s'.hw.bufs[t] == []
            && Tso.Read(s'.hw.mem, w) == OwnView(w, s, t)
    decreases k
  {
    if k == 0 {
    } else {
      var s' := Step(w, s, Drain(t));
      Tso.LookupFlush(s.hw.bufs[t], s.hw.mem, w);
      DrainsOut(w, s', t, k - 1);
      assert Drains(t, k)[1..] == Drains(t, k - 1);
    }
  }

  /** Processor t is at the end of its call; what the call did to the word, and what it will return. */
  predicate Finished(w: Tso.Addr, s: System, s': System, t: nat)
    requires t < |s.threads| == |s'.threads| && Calls(s.threads[t])
    requires s.threads[t].pc <= |Code(X86, s.threads[t].op)|
  {
    var th, th' := s.threads[t], s'.threads[t];
    var before, after := Tso.Read(s.hw.mem, w), Tso.Read(s'.hw.mem, w);
    && th'.Busy? && th'.op == th.op && th'.pc == |Code(X86, th.op)|
    && if Done(X86, th.op, th.pc, th.r) then after == before && th'.r.prev == th.r.prev
       else after == NewValue(th.op, before) && th'.r.prev == before
  }

  lemma PrependRun(w: Tso.Addr, s: System, t: nat, k: nat)
    requires Enabled(w, s, Run(t)) && Runs(w, Step(w, s, Run(t)), Solo(t, k))
    ensures Runs(w, s, Solo(t, k + 1))
    ensures After(w, s, Solo(t, k + 1)) == After(w, Step(w, s, Run(t)), Solo(t, k))
  {
    assert Solo(t, k + 1)[1..] == Solo(t, k);
  }

  lemma SoloStep(w: Tso.Addr, s: System, t: nat)
    requires t < |s.threads| == |s.hw.bufs| && s.hw.bufs[t] == [] && Calls(s.threads[t])
    requires s.threads[t].pc < |Code(X86, s.threads[t].op)| && !s.threads[t].linked
    ensures Enabled(w, s, Run(t))
    ensures var th, s' := s.threads[t], Step(w, s, Run(t));
            var th', before, after := s'.threads[t], Tso.Read(s.hw.mem, w), Tso.Read(s'.hw.mem, w);
            && |s'.threads| == |s.threads| && s'.hw.bufs == s.hw.bufs
            && th'.Busy? && th'.op == th.op && th'.pc <= |Code(X86, th.op)| && !th'.linked
            && Remaining(X86, th', after) < Remaining(X86, th, before)
            && if Done(X86, th.op, th.pc, th.r)
               then after == before && th'.r.prev == th.r.prev && Done(X86, th.op, th'.pc, th'.r)
               else if Done(X86, th.op, th'.pc, th'.r)
               then after == NewValue(th.op, before) && th'.r.prev == before
               else after == before
  {
    HardwareStep(w, s, t);
    SoloInstruction(X86, s.threads[t], Tso.Read(s.hw.mem, w), Seen(w, s, t));
  }

  lemma {:induction false} SoloRun(w: Tso.Addr, s: System, t: nat) returns (k: nat)
    requires t < |s.threads| == |s.hw.bufs| && s.hw.bufs[t] == [] && Calls(s.threads[t])
    requires s.threads[t].pc <= |Code(X86, s.threads[t].op)| && !s.threads[t].linked
    ensures k <= Remaining(X86, s.threads[t], Tso.Read(s.hw.mem, w)) && Runs(w, s, Solo(t, k))
    ensures var s' := After(w, s, Solo(t, k));
            |s'.threads| == |s'.hw.bufs| == |s.threads| && Finished(w, s, s', t)
    decreases Remaining(X86, s.threads[t], Tso.Read(s.hw.mem, w))
  {
    var th := s.threads[t];
    if th.pc == |Code(X86, th.op)| {
      k := 0;
    } else {
      SoloStep(w, s, t);
      var rest := SoloRun(w, Step(w, s, Run(t)), t);
      k := rest + 1;
      PrependRun(w, s, t, rest);
    }
  }

  lemma {:induction false} NobodyLinks(w: Tso.Addr, s: System, acts: seq<Action>, t: nat)
    requires Runs(w, s, acts) && t < |After(w, s, acts).threads|
    requires forall u | 0 <= u < |s.threads| && s.threads[u].Busy? :: !s.threads[u].linked
    ensures After(w, s, acts).threads[t].Busy? ==> !After(w, s, acts).threads[t].linked
    decreases |acts|
  {
    if acts == [] {
    } else {
      NobodyLinks(w, Step(w, s, acts[0]), acts[1..], t);
    }
  }

  /** Obstruction freedom on x86: from every reachable state, a call whose processor runs alone is ready to
      return after its buffer has drained and at most two rounds of its code. If it had not taken its step
      yet, the word in memory is changed as the operation says from what the processor saw there, its own
      outstanding stores included, and the value returned is the one for that. */
  lemma SoloCompletes(w: Tso.Addr, s: System, acts: seq<Action>, t: nat) returns (k: nat)
    requires Initial(s) && Runs(w, s, acts)
    requires t < |After(w, s, acts).threads| && After(w, s, acts).threads[t].Busy?
    ensures var s0 := After(w, s, acts);
            && |s0.hw.bufs| == |s0.threads| == |History(w, s, acts).views| && HasCode(X86, s0.threads[t].op)
            && var d, op := Drains(t, |s0.hw.bufs[t]|), s0.threads[t].op;
               && k <= 2 * |Code(X86, op)|
               && Runs(w, s0, d) && Runs(w, After(w, s0, d), Solo(t, k))
               && var s1, a := After(w, After(w, s0, d), Solo(t, k)), History(w, s, acts);
                  && Enabled(w, s1, Return(t))
                  && match a.views[t]
                     case Idle => false
                     case Pending(o) =>
                       && o == op && Tso.Read(s1.hw.mem, w) == NewValue(op, OwnView(w, s0, t))
                       && Observe(w, s1, Return(t)) == [Core(Ended(t, Returned(op, OwnView(w, s0, t))))]
                     case Taken(o, j) =>
                       && o == op && Tso.Read(s1.hw.mem, w) == OwnView(w, s0, t) && j < |a.steps|
                       && Observe(w, s1, Return(t)) ==
                          [Core(Ended(t, Returned(op, Final(a.init, a.steps[..j]))))]
  {
    Refinement(w, s, acts);
    NobodyLinks(w, s, acts, t);
    var s0, a := After(w, s, acts), History(w, s, acts);
    assert ThreadMatches(X86, s0.threads[t], a.views[t], a, 0);
    DrainsOut(w, s0, t, |s0.hw.bufs[t]|);
    k := SoloRun(w, After(w, s0, Drains(t, |s0.hw.bufs[t]|)), t);
  }

  lemma WordIsOutcome(w: Tso.Addr, s: System, acts: seq<Action>)
    requires Initial(s) && Runs(w, s, acts)
    ensures Tso.Read(After(w, s, acts).hw.mem, w) == Final(Tso.Read(s.hw.mem, w), History(w, s, acts).steps)
  {
    EveryRunIsAtomicSteps(w, s, acts);
  }

  /** Once a processor's buffer is empty, as the mfence of acquire_store waits for, none of its stores is
      outstanding. */
  lemma EmptyBufferMeansLanded(w: Tso.Addr, s: System, acts: seq<Action>, t: nat)
    requires Initial(s) && Runs(w, s, acts) && t < |After(w, s, acts).hw.bufs|
    ensures var a := XStart(Tso.Read(s.hw.mem, w), |s.threads|);
            && XAccepts(a, Trace(w, s, acts))
            && var posted := XAdvanceAll(a, Trace(w, s, acts)).posted;
               t < |posted| && (After(w, s, acts).hw.bufs[t] == [] ==> posted[t] == [])
  {
    Refinement(w, s, acts);
  }

  /** Every operation a run uses on the word is one of `ops`. */
  ghost predicate Uses(act: Action, ops: iset<Op>) {
    && (act.Call? ==> act.op in ops)
    && (act.Peek? ==> Get in ops)
    && (act.Post? ==> Put(act.v) in ops)
  }

  ghost predicate CallsOnly(acts: seq<Action>, ops: iset<Op>) {
    forall k | 0 <= k < |acts| :: Uses(acts[k], ops)
  }

  ghost predicate XWithin(tr: seq<XEvent>, ops: iset<Op>) {
    forall k | 0 <= k < |tr| && tr[k].Core? ::
      (tr[k].e.Called? ==> tr[k].e.op in ops) && (tr[k].e.Landed? ==> Put(tr[k].e.v) in ops)
  }

  lemma {:induction false} CoreWithin(tr: seq<XEvent>, ops: iset<Op>)
    requires XWithin(tr, ops)
    ensures CallsWithin(CoreEvents(tr), ops)
    decreases |tr|
  {
    if tr == [] {
    } else {
      assert tr[0].Core? ==> XWithin([tr[0]], ops);
      CoreWithin(tr[1..], ops);
    }
  }

  ghost predicate StoresWithin(s: System, w: Tso.Addr, ops: iset<Op>) {
    forall t, k | 0 <= t < |s.hw.bufs| && 0 <= k < |s.hw.bufs[t]| && s.hw.bufs[t][k].addr == w ::
      Put(s.hw.bufs[t][k].val) in ops
  }

  lemma StepStaysWithin(w: Tso.Addr, s: System, act: Action, ops: iset<Op>)
    requires Enabled(w, s, act) && StoresWithin(s, w, ops) && Uses(act, ops)
    ensures StoresWithin(Step(w, s, act), w, ops) && XWithin(Observe(w, s, act), ops)
  {
    match act
    case Run(t) => HardwareStep(w, s, t);
    case _ =>
  }

  lemma {:induction false} RunStaysWithin(w: Tso.Addr, s: System, acts: seq<Action>, ops: iset<Op>)
    requires Runs(w, s, acts) && StoresWithin(s, w, ops) && CallsOnly(acts, ops)
    ensures XWithin(Trace(w, s, acts), ops)
    decreases |acts|
  {
    if acts == [] {
    } else {
      StepStaysWithin(w, s, acts[0], ops);
      RunStaysWithin(w, Step(w, s, acts[0]), acts[1..], ops);
    }
  }

  lemma StepsAreCalls(w: Tso.Addr, s: System, acts: seq<Action>, ops: iset<Op>)
    requires Initial(s) && Runs(w, s, acts) && CallsOnly(acts, ops)
    ensures Accepts(Start(Tso.Read(s.hw.mem, w), |s.threads|), CoreEvents(Trace(w, s, acts)))
    ensures CallsWithin(CoreEvents(Trace(w, s, acts)), ops)
  {
    Refinement(w, s, acts);
    RunStaysWithin(w, s, acts, ops);
    CoreWithin(Trace(w, s, acts), ops);
  }

  lemma AddsOnlyRun(w: Tso.Addr, s: System, acts: seq<Action>)
    requires Initial(s) && Runs(w, s, acts) && CallsOnly(acts, AddsOnly())
    ensures OnlyAdds(History(w, s, acts).steps)
  {
    StepsAreCalls(w, s, acts, AddsOnly());
    CounterRun(Tso.Read(s.hw.mem, w), |s.threads|, CoreEvents(Trace(w, s, acts)));
  }

  /** On x86 a word that is changed only by add, inc and dec holds its initial value plus the increments
      that took effect, modulo 2^32. */
  lemma CountersCount(w: Tso.Addr, s: System, acts: seq<Action>)
    requires Initial(s) && Runs(w, s, acts) && CallsOnly(acts, AddsOnly())
    ensures var steps := History(w, s, acts).steps;
            && OnlyAdds(steps)
            && Tso.Read(After(w, s, acts).hw.mem, w) == Wrap(Tso.Read(s.hw.mem, w) + Sum(steps))
  {
    var init := Tso.Read(s.hw.mem, w);
    WordIsOutcome(w, s, acts);
    AddsOnlyRun(w, s, acts);
    WordIsSumOfIncrements(init, History(w, s, acts).steps);
  }

  /** With inc alone, two calls are handed the same previous value exactly when a multiple of 2^32
      separates their steps. */
  lemma IncsReturnDistinctValues(w: Tso.Addr, s: System, acts: seq<Action>, j: nat, k: nat)
    requires Initial(s) && Runs(w, s, acts) && CallsOnly(acts, iset{Add(1)})
    requires var a := History(w, s, acts); j in a.returned && k in a.returned
    ensures var a := History(w, s, acts);
            a.returned[j] == a.returned[k] <==> (j - k) % MODULUS == 0
  {
    StepsAreCalls(w, s, acts, iset{Add(1)});
    TicketRun(Tso.Read(s.hw.mem, w), |s.threads|, CoreEvents(Trace(w, s, acts)), j, k);
  }

  /** In a word changed only by or, a bit is set exactly when it was at the start or is in the mask of a
      call that took effect. */
  lemma FlagsAreNeverLost(w: Tso.Addr, s: System, acts: seq<Action>, b: nat)
    requires Initial(s) && Runs(w, s, acts) && CallsOnly(acts, OrsOnly()) && b < BITS_PER_WORD
    ensures var steps := History(w, s, acts).steps;
            && OnlyOrs(steps)
            && (BitSet(Tso.Read(After(w, s, acts).hw.mem, w), b) <==>
                BitSet(Tso.Read(s.hw.mem, w), b) || exists k :: 0 <= k < |steps| && InMask(steps[k].op, b))
  {
    WordIsOutcome(w, s, acts);
    StepsAreCalls(w, s, acts, OrsOnly());
    FlagRun(Tso.Read(s.hw.mem, w), |s.threads|, CoreEvents(Trace(w, s, acts)), b);
  }

  /** A store is seen by its own processor at once, and by all when the processor's buffer has drained. */
  lemma PostedStoreLands(w: Tso.Addr, s: System, t: nat, v: int32)
    requires t < |s.threads| == |s.hw.bufs| && s.threads[t] == Resting
    ensures Enabled(w, s, Post(t, v))
    ensures var s1 := Step(w, s, Post(t, v));
            var d := Drains(t, |s.hw.bufs[t]| + 1);
            && Enabled(w, s1, Peek(t)) && Observe(w, s1, Peek(t)) == [Forwarded(t, v)]
            && Runs(w, s1, d) && Tso.Read(After(w, s1, d).hw.mem, w) == v
  {
    var s1 := Step(w, s, Post(t, v));
    Tso.LookupAppend(s.hw.bufs[t], s.hw.mem, Tso.Write(w, v), w);
    ValuesAppend(s.hw.bufs[t], Tso.Write(w, v), w);
    DrainsOut(w, s1, t, |s.hw.bufs[t]| + 1);
  }

  /** release_store is not a step between call and return: after it returned, another processor can still
      load the old value. */
  lemma ReleaseStoreTakesEffectLater(w: Tso.Addr, s: System, v: int32)
    requires Initial(s) && |s.threads| >= 2
    ensures var acts := [Post(0, v), Peek(1)];
            && Runs(w, s, acts)
            && Core(Ended(1, Tso.Read(s.hw.mem, w))) in Trace(w, s, acts)
  {
    var acts := [Post(0, v), Peek(1)];
    var s1 := Step(w, s, acts[0]);
    assert acts[1..] == [Peek(1)] && [Peek(1)][1..] == [];
    assert Runs(w, s1, [Peek(1)]);
    var seen := Observe(w, s1, Peek(1));
    assert seen[2] == Core(Ended(1, Tso.Read(s.hw.mem, w)));
    assert Trace(w, s, acts) == Observe(w, s, acts[0]) + (seen + []);
  }
}
