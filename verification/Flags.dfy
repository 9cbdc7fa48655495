/** Mutual exclusion by flags alone (Dekker's idea) on x86-TSO. A processor raises its own flag with
    android_atomic_acquire_store, looks at the other flags in any order with
    android_atomic_acquire_load, goes in only once it has seen each of them down, uses the guarded
    words with plain loads and stores, and lowers its flag with android_atomic_release_store.
    A processor that sees a raised flag may look again or lower its own flag and start over.
    The `mfence` that ends android_atomic_acquire_store is what makes this work. */
module Flags {
  import opened IdealLock
  import opened Int32
  import opened Options
  import opened Tso

  const DOWN: int32 := 0
  const UP: int32 := 1

  /** The store used to raise a flag. */
  datatype Raiser = Fenced | Unfenced

  function RaiseCode(r: Raiser, flag: Addr): seq<Instr> {
    if r == Fenced then AcquireStore(UP, flag) else ReleaseStore(UP, flag)
  }

  /** How flags are raised, and the words that only a processor inside may use. */
  datatype Config = Config(raiser: Raiser, guarded: iset<Addr>)

  /** Where a processor is: outside; executing its raise code, `pc` instructions done; or looking,
      having seen the flags of the processors in `seen` down. */
  datatype Phase = Outside | Raising(pc: nat) | Looking(seen: set<nat>)

  /** The flag of processor t is the word at address t. */
  datatype System = System(hw: Tso.State, phases: seq<Phase>)

  datatype Action =
    | Raise(t: nat)           // the next instruction of the raise code
    | Look(t: nat, u: nat)    // load the flag of another processor
    | ReadGuarded(t: nat, a: Addr)
    | WriteGuarded(t: nat, a: Addr, v: int32)
    | Lower(t: nat)           // leave, or give up
    | Unrelated(t: nat, i: Instr)
    | Drain(t: nat)

  predicate IsFlag(a: Addr, n: nat) { a < n }

  ghost function FlagZone(n: nat): iset<Addr> { iset a: Addr | IsFlag(a, n) }

  predicate HasSeen(p: Phase, u: nat) { p.Looking? && u in p.seen }

  /** Processor t has seen every other flag down: it may go in. */
  predicate Inside(s: System, t: nat)
    requires t < |s.phases|
  {
    s.phases[t].Looking? && forall u | 0 <= u < |s.phases| && u != t :: HasSeen(s.phases[t], u)
  }

  ghost function Code(c: Config, s: System, act: Action): Instr
    requires act.t < |s.phases| && !act.Drain?
    requires act.Raise? ==> !s.phases[act.t].Looking?
    requires act.Raise? && s.phases[act.t].Raising? ==> s.phases[act.t].pc < |RaiseCode(c.raiser, act.t)|
  {
    match act
    case Raise(t) => RaiseCode(c.raiser, t)[if s.phases[t] == Outside then 0 else s.phases[t].pc]
    case Look(_, u) => AcquireLoad(u)[0]
    case ReadGuarded(_, a) => Load(a)
    case WriteGuarded(_, a, v) => Store(a, v)
    case Lower(t) => ReleaseStore(DOWN, t)[0]
    case Unrelated(_, i) => i
  }

  ghost predicate Enabled(c: Config, s: System, act: Action) {
    && act.t < |s.phases| == |s.hw.bufs|
    && var p := s.phases[act.t];
    && (match act
        case Raise(t) => p == Outside || (p.Raising? && p.pc < |RaiseCode(c.raiser, t)|)
        case Look(t, u) => p.Looking? && u < |s.phases| && u != t
        case ReadGuarded(t, a) => Inside(s, t) && a in c.guarded
        case WriteGuarded(t, a, _) => Inside(s, t) && a in c.guarded
        case Lower(_) => p.Looking?
        case Unrelated(_, i) => Avoids(i, FlagZone(|s.phases|) + c.guarded)
        case Drain(_) => true)
    && (if act.Drain? then CanFlush(s.hw, act.t) else Tso.Enabled(s.hw, act.t, Code(c, s, act)))
  }

  ghost function Step(c: Config, s: System, act: Action): System
    requires Enabled(c, s, act)
  {
    if act.Drain? then s.(hw := Flush(s.hw, act.t))
    else
      var i := Code(c, s, act);
      var hw := Exec(s.hw, act.t, i);
      var p := s.phases[act.t];
      match act
      case Raise(t) =>
        var done := if p == Outside then 1 else p.pc + 1;
        System(hw, s.phases[t := if done == |RaiseCode(c.raiser, t)| then Looking({}) else Raising(done)])
      case Look(t, u) =>
        if Result(s.hw, t, i) == DOWN then System(hw, s.phases[t := Looking(p.seen + {u})]) else s.(hw := hw)
      case Lower(t) => System(hw, s.phases[t := Outside])
      case _ => s.(hw := hw)
  }

  /** Going in and coming out are observed as the acquisition and the release of a lock. */
  ghost function Observe(c: Config, s: System, act: Action): seq<Event>
    requires Enabled(c, s, act)
  {
    match act
    case ReadGuarded(t, a) => [Got(t, a, Result(s.hw, t, Code(c, s, act)))]
    case WriteGuarded(t, a, v) => [Put(t, a, v)]
    case _ =>
      var before, after := Inside(s, act.t), Inside(Step(c, s, act), act.t);
      if !before && after then [Acquired(act.t)] else if before && !after then [Released(act.t)] else []
  }

  ghost predicate Runs(c: Config, s: System, acts: seq<Action>)
    decreases |acts|
  {
    acts == [] || (Enabled(c, s, acts[0]) && Runs(c, Step(c, s, acts[0]), acts[1..]))
  }

  ghost function After(c: Config, s: System, acts: seq<Action>): System
    requires Runs(c, s, acts)
    decreases |acts|
  {
    if acts == [] then s else After(c, Step(c, s, acts[0]), acts[1..])
  }

  ghost function Trace(c: Config, s: System, acts: seq<Action>): seq<Event>
    requires Runs(c, s, acts)
    decreases |acts|
  {
    if acts == [] then []
    else Observe(c, s, acts[0]) + Trace(c, Step(c, s, acts[0]), acts[1..])
  }

  /** Everybody is outside, every flag is down and every store buffer is empty. */
  predicate Initial(s: System) {
    && |s.phases| == |s.hw.bufs|
    && forall t | 0 <= t < |s.phases| :: s.phases[t] == Outside && s.hw.bufs[t] == [] && Read(s.hw.mem, t) == DOWN
  }

  /** Flags are raised with the fenced store, and no flag is a guarded word. */
  ghost predicate Proper(c: Config, s: System) {
    c.raiser == Fenced && c.guarded !! FlagZone(|s.phases|)
  }

  // ---- The flags ----

  /** Two processors have each seen the other's flag down. */
  predicate Mutual(s: System, t: nat, u: nat)
    requires t < |s.phases| && u < |s.phases|
  {
    HasSeen(s.phases[t], u) && HasSeen(s.phases[u], t)
  }

  ghost predicate FlagInv(s: System) {
    && |s.phases| == |s.hw.bufs|
    // only the owner writes a flag
    && (forall t, k | 0 <= t < |s.phases| && 0 <= k < |s.hw.bufs[t]| ::
          s.hw.bufs[t][k].addr < |s.phases| ==> s.hw.bufs[t][k].addr == t)
    // once the raise code is done the flag is up in memory, for all to see
    && (forall t | 0 <= t < |s.phases| && s.phases[t].Looking? ::
          Read(s.hw.mem, t) == UP && Clear(s.hw.bufs[t], FlagZone(|s.phases|)))
    // before that the owner at least sees it as it should be
    && (forall t | 0 <= t < |s.phases| && !s.phases[t].Looking? ::
          && (s.phases[t].Raising? ==> s.phases[t].pc == 1)
          && Lookup(s.hw.bufs[t], s.hw.mem, t) == if s.phases[t].Raising? then UP else DOWN)
    && (forall t, u | 0 <= t < |s.phases| && 0 <= u < |s.phases| && t != u :: !Mutual(s, t, u))
  }

  lemma DrainKeepsFlagInv(c: Config, s: System, t: nat)
    requires FlagInv(s) && Enabled(c, s, Drain(t))
    ensures FlagInv(Step(c, s, Drain(t)))
  {
    var s' := Step(c, s, Drain(t));
    var w := s.hw.bufs[t][0];
    forall u | 0 <= u < |s.phases| && !s.phases[u].Looking?
      ensures Lookup(s'.hw.bufs[u], s'.hw.mem, u) == Lookup(s.hw.bufs[u], s.hw.mem, u)
    {
      if u == t { LookupFlush(s.hw.bufs[t], s.hw.mem, t); }
      else { LookupFrame(s.hw.bufs[u], s.hw.mem, u, w.addr, w.val); }
    }
    forall t, u | 0 <= t < |s.phases| && 0 <= u < |s.phases| && t != u ensures !Mutual(s', t, u) {
      assert !Mutual(s, t, u);
    }
  }

  /** A store to a word that is no flag, guarded or unrelated. */
  lemma StoreKeepsFlagInv(s: System, t: nat, b: Addr, v: int32)
    requires FlagInv(s) && t < |s.phases| <= b
    ensures FlagInv(s.(hw := Exec(s.hw, t, Store(b, v))))
  {
    var s' := s.(hw := Exec(s.hw, t, Store(b, v)));
    LookupAppend(s.hw.bufs[t], s.hw.mem, Write(b, v), t);
    forall t, u | 0 <= t < |s.phases| && 0 <= u < |s.phases| && t != u ensures !Mutual(s', t, u) {
      assert !Mutual(s, t, u);
    }
  }

  lemma LockedKeepsFlagInv(s: System, t: nat, i: Instr)
    requires FlagInv(s) && Tso.Enabled(s.hw, t, i) && (i.LockCmpxchg? || i.LockXadd?) && i.a >= |s.phases|
    ensures FlagInv(s.(hw := Exec(s.hw, t, i)))
  {
    var s' := s.(hw := Exec(s.hw, t, i));
    var v := if i.LockCmpxchg? then i.new_ else Wrap(Read(s.hw.mem, i.a) + i.inc);
    forall u | 0 <= u < |s.phases| && !s.phases[u].Looking?
      ensures Lookup(s.hw.bufs[u], s.hw.mem[i.a := v], u) == Lookup(s.hw.bufs[u], s.hw.mem, u)
    {
      LookupFrame(s.hw.bufs[u], s.hw.mem, u, i.a, v);
    }
    forall t, u | 0 <= t < |s.phases| && 0 <= u < |s.phases| && t != u ensures !Mutual(s', t, u) {
      assert !Mutual(s, t, u);
    }
  }

  lemma RaiseKeepsFlagInv(c: Config, s: System, t: nat)
    requires FlagInv(s) && c.raiser == Fenced && Enabled(c, s, Raise(t))
    ensures FlagInv(Step(c, s, Raise(t)))
  {
    if s.phases[t] == Outside {
      LookupAppend(s.hw.bufs[t], s.hw.mem, Write(t, UP), t);
    }
    forall t', u | 0 <= t' < |s.phases| && 0 <= u < |s.phases| && t' != u
      ensures !Mutual(Step(c, s, Raise(t)), t', u)
    {
      assert !Mutual(s, t', u);
    }
  }

  /** A look that finds the flag down finds a processor that is not looking. */
  lemma LookKeepsFlagInv(c: Config, s: System, t: nat, u: nat)
    requires FlagInv(s) && Enabled(c, s, Look(t, u))
    ensures FlagInv(Step(c, s, Look(t, u)))
  {
    LookupClear(s.hw.bufs[t], s.hw.mem, u, FlagZone(|s.phases|));
    forall t', u' | 0 <= t' < |s.phases| && 0 <= u' < |s.phases| && t' != u'
      ensures !Mutual(Step(c, s, Look(t, u)), t', u')
    {
      assert !Mutual(s, t', u');
    }
  }

  lemma LowerKeepsFlagInv(c: Config, s: System, t: nat)
    requires FlagInv(s) && Enabled(c, s, Lower(t))
    ensures FlagInv(Step(c, s, Lower(t)))
  {
    LookupAppend(s.hw.bufs[t], s.hw.mem, Write(t, DOWN), t);
    forall t', u | 0 <= t' < |s.phases| && 0 <= u < |s.phases| && t' != u
      ensures !Mutual(Step(c, s, Lower(t)), t', u)
    {
      assert !Mutual(s, t', u);
    }
  }

  lemma StepKeepsFlagInv(c: Config, s: System, act: Action)
    requires Proper(c, s) && FlagInv(s) && Enabled(c, s, act)
    ensures FlagInv(Step(c, s, act))
  {
    match act
    case Raise(t) => RaiseKeepsFlagInv(c, s, t);
    case Look(t, u) => LookKeepsFlagInv(c, s, t, u);
    case ReadGuarded(_, _) =>
    case WriteGuarded(t, a, v) => StoreKeepsFlagInv(s, t, a, v);
    case Unrelated(t, i) =>
      match i {
        case Store(b, v) => StoreKeepsFlagInv(s, t, b, v);
        case LockCmpxchg(_, _, _) => LockedKeepsFlagInv(s, t, i);
        case LockXadd(_, _) => LockedKeepsFlagInv(s, t, i);
        case _ =>
      }
    case Drain(t) => DrainKeepsFlagInv(c, s, t);
    case Lower(t) => LowerKeepsFlagInv(c, s, t);
  }

  // ---- The guarded words ----

  /** The guarded words as processor `o` sees them; nobody's view is memory itself. */
  function View(s: System, o: nat, x: Addr): int32 {
    if o < |s.hw.bufs| then Lookup(s.hw.bufs[o], s.hw.mem, x) else Read(s.hw.mem, x)
  }

  /** Guarded stores wait before any flag store of the same buffer. */
  ghost predicate DataFirst(buf: Buffer, n: nat, guarded: iset<Addr>) {
    forall j, k | 0 <= j < k < |buf| && buf[j].addr < n :: buf[k].addr !in guarded
  }

  ghost predicate BufInv(c: Config, s: System) {
    && |s.phases| == |s.hw.bufs|
    // a processor whose guarded stores have not all drained is seen down by nobody
    && (forall t, u | 0 <= t < |s.phases| && 0 <= u < |s.phases| && t != u && HasSeen(s.phases[t], u) ::
          Clear(s.hw.bufs[u], c.guarded))
    // because its flag is still up
    && (forall u | 0 <= u < |s.phases| :: Read(s.hw.mem, u) == UP || Clear(s.hw.bufs[u], c.guarded))
    && (forall u | 0 <= u < |s.phases| :: DataFirst(s.hw.bufs[u], |s.phases|, c.guarded))
  }

  lemma FirstDrains(buf: Buffer, n: nat, guarded: iset<Addr>)
    requires buf != [] && DataFirst(buf, n, guarded)
    ensures DataFirst(buf[1..], n, guarded)
    ensures Clear(buf, guarded) || buf[0].addr < n ==> Clear(buf[1..], guarded)
  {
  }

  lemma LastEnters(buf: Buffer, w: Write, n: nat, guarded: iset<Addr>)
    requires DataFirst(buf, n, guarded)
    requires w.addr in guarded ==> Clear(buf, FlagZone(n))
    ensures DataFirst(buf + [w], n, guarded)
    ensures Clear(buf, guarded) && w.addr !in guarded ==> Clear(buf + [w], guarded)
  {
    forall j, k | 0 <= j < k < |buf + [w]| && (buf + [w])[j].addr < n ensures (buf + [w])[k].addr !in guarded {
      assert buf[j].addr in FlagZone(n);
    }
  }

  /** Buffers may only gain or lose entries at the ends: what that must not break. */
  lemma BufInvFrom(c: Config, s: System, s': System)
    requires Proper(c, s) && BufInv(c, s)
    requires |s'.phases| == |s'.hw.bufs| == |s.phases|
    requires forall u | 0 <= u < |s.phases| :: DataFirst(s'.hw.bufs[u], |s.phases|, c.guarded)
    requires forall u | 0 <= u < |s.phases| && Clear(s.hw.bufs[u], c.guarded) :: Clear(s'.hw.bufs[u], c.guarded)
    requires forall u | 0 <= u < |s.phases| && Read(s.hw.mem, u) == UP ::
               Read(s'.hw.mem, u) == UP || Clear(s'.hw.bufs[u], c.guarded)
    requires forall t | 0 <= t < |s.phases| && s'.phases[t].Looking? ::
               s'.phases[t].seen == {} || s'.phases[t] == s.phases[t]
    ensures BufInv(c, s')
  {
  }

  lemma DrainKeepsBufInv(c: Config, s: System, t: nat)
    requires Proper(c, s) && FlagInv(s) && BufInv(c, s) && Enabled(c, s, Drain(t))
    ensures BufInv(c, Step(c, s, Drain(t)))
  {
    FirstDrains(s.hw.bufs[t], |s.phases|, c.guarded);
    BufInvFrom(c, s, Step(c, s, Drain(t)));
  }

  lemma StoreKeepsBufInv(c: Config, s: System, act: Action)
    requires Proper(c, s) && FlagInv(s) && BufInv(c, s) && Enabled(c, s, act)
    requires !act.Drain? && !act.WriteGuarded? && Code(c, s, act).Store?
    ensures BufInv(c, Step(c, s, act))
  {
    var i := Code(c, s, act);
    LastEnters(s.hw.bufs[act.t], Write(i.a, i.v), |s.phases|, c.guarded);
    BufInvFrom(c, s, Step(c, s, act));
  }

  lemma WriteKeepsBufInv(c: Config, s: System, t: nat, x: Addr, v: int32)
    requires Proper(c, s) && FlagInv(s) && BufInv(c, s) && Enabled(c, s, WriteGuarded(t, x, v))
    ensures BufInv(c, Step(c, s, WriteGuarded(t, x, v)))
  {
    var s' := Step(c, s, WriteGuarded(t, x, v));
    LastEnters(s.hw.bufs[t], Write(x, v), |s.phases|, c.guarded);
    forall u, r | 0 <= u < |s.phases| && 0 <= r < |s.phases| && u != r && HasSeen(s.phases[u], r)
      ensures Clear(s'.hw.bufs[r], c.guarded)
    {
      assert u != t ==> !Mutual(s, u, t);
    }
  }

  lemma LookKeepsBufInv(c: Config, s: System, t: nat, u: nat)
    requires Proper(c, s) && FlagInv(s) && BufInv(c, s) && Enabled(c, s, Look(t, u))
    ensures BufInv(c, Step(c, s, Look(t, u)))
  {
    LookupClear(s.hw.bufs[t], s.hw.mem, u, FlagZone(|s.phases|));
  }

  lemma StepKeepsBufInv(c: Config, s: System, act: Action)
    requires Proper(c, s) && FlagInv(s) && BufInv(c, s) && Enabled(c, s, act)
    ensures BufInv(c, Step(c, s, act))
  {
    if act.Drain? {
      DrainKeepsBufInv(c, s, act.t);
    } else if act.WriteGuarded? {
      WriteKeepsBufInv(c, s, act.t, act.a, act.v);
    } else if act.Look? {
      LookKeepsBufInv(c, s, act.t, act.u);
    } else if Code(c, s, act).Store? {
      StoreKeepsBufInv(c, s, act);
    } else {
      BufInvFrom(c, s, Step(c, s, act));
    }
  }

  /** At most one processor `o` still has guarded stores in its buffer, and it sees what was put last. */
  ghost predicate DataInv(c: Config, s: System, a: Ideal, o: nat) {
    && |s.phases| == |s.hw.bufs|
    && (forall u | 0 <= u < |s.phases| && u != o :: Clear(s.hw.bufs[u], c.guarded))
    && (forall x | x in c.guarded :: View(s, o, x) == Read(a.mem, x))
  }

  /** When a processor is inside, no other processor has guarded stores left. */
  lemma InsiderSeesAll(c: Config, s: System, a: Ideal, o: nat, t: nat)
    requires BufInv(c, s) && DataInv(c, s, a, o) && t < |s.phases| && Inside(s, t)
    ensures DataInv(c, s, a, t)
  {
    if o != t {
      forall x | x in c.guarded ensures View(s, t, x) == Read(a.mem, x) {
        LookupClear(s.hw.bufs[t], s.hw.mem, x, c.guarded);
        if o < |s.phases| { LookupClear(s.hw.bufs[o], s.hw.mem, x, c.guarded); }
      }
    }
  }

  lemma DrainKeepsDataInv(c: Config, s: System, a: Ideal, o: nat, t: nat)
    requires DataInv(c, s, a, o) && Enabled(c, s, Drain(t))
    ensures DataInv(c, Step(c, s, Drain(t)), a, o)
  {
    var s' := Step(c, s, Drain(t));
    var w := s.hw.bufs[t][0];
    forall x | x in c.guarded ensures View(s', o, x) == Read(a.mem, x) {
      if o == t { LookupFlush(s.hw.bufs[t], s.hw.mem, x); }
      else if o < |s.phases| { LookupFrame(s.hw.bufs[o], s.hw.mem, x, w.addr, w.val); }
    }
  }

  lemma StoreKeepsDataInv(c: Config, s: System, a: Ideal, o: nat, t: nat, w: Write)
    requires DataInv(c, s, a, o) && t < |s.phases| && (w.addr in c.guarded ==> t == o)
    ensures var s' := s.(hw := Exec(s.hw, t, Store(w.addr, w.val)));
            DataInv(c, s', if w.addr in c.guarded then a.(mem := a.mem[w.addr := w.val]) else a, o)
  {
    var s' := s.(hw := Exec(s.hw, t, Store(w.addr, w.val)));
    forall x | x in c.guarded
      ensures View(s', o, x) == if w.addr == x then w.val else View(s, o, x)
    {
      LookupAppend(s.hw.bufs[t], s.hw.mem, w, x);
    }
  }

  lemma LockedKeepsDataInv(c: Config, s: System, a: Ideal, o: nat, t: nat, i: Instr)
    requires DataInv(c, s, a, o) && Tso.Enabled(s.hw, t, i)
    requires (i.LockCmpxchg? || i.LockXadd?) && i.a !in c.guarded
    ensures DataInv(c, s.(hw := Exec(s.hw, t, i)), a, o)
  {
    var s' := s.(hw := Exec(s.hw, t, i));
    var v := if i.LockCmpxchg? then i.new_ else Wrap(Read(s.hw.mem, i.a) + i.inc);
    forall x | x in c.guarded ensures View(s', o, x) == View(s, o, x) {
      if o < |s.phases| { LookupFrame(s.hw.bufs[o], s.hw.mem, x, i.a, v); }
    }
  }

  /** The memory of the ideal lock after one action. */
  ghost function Effect(m: Memory, act: Action): Memory {
    if act.WriteGuarded? then m[act.a := act.v] else m
  }

  lemma StepKeepsDataInv(c: Config, s: System, a: Ideal, o: nat, act: Action) returns (o': nat)
    requires Proper(c, s) && BufInv(c, s) && DataInv(c, s, a, o) && Enabled(c, s, act)
    ensures DataInv(c, Step(c, s, act), a.(mem := Effect(a.mem, act)), o')
    ensures act.ReadGuarded? ==> Result(s.hw, act.t, Code(c, s, act)) == Read(a.mem, act.a)
  {
    o' := o;
    if act.ReadGuarded? || act.WriteGuarded? {
      o' := act.t;
      InsiderSeesAll(c, s, a, o, act.t);
    }
    if act.Drain? {
      DrainKeepsDataInv(c, s, a, o, act.t);
    } else {
      var i := Code(c, s, act);
      match i
      case Store(b, v) => StoreKeepsDataInv(c, s, a, o', act.t, Write(b, v));
      case LockCmpxchg(_, _, _) => LockedKeepsDataInv(c, s, a, o, act.t, i);
      case LockXadd(_, _) => LockedKeepsDataInv(c, s, a, o, act.t, i);
      case _ =>
    }
  }

  // ---- Who is inside ----

  ghost predicate HolderInv(s: System, a: Ideal) {
    && |s.phases| == |s.hw.bufs|
    && (a.holder.Some? ==> a.holder.value < |s.phases|)
    && (forall t | 0 <= t < |s.phases| :: Inside(s, t) <==> a.holder == Some(t))
  }

  lemma OnlyOneInside(s: System, t: nat, u: nat)
    requires FlagInv(s) && t < |s.phases| && u < |s.phases| && t != u
    ensures !(Inside(s, t) && Inside(s, u))
  {
    assert !Mutual(s, t, u);
  }

  /** An action moves at most its own processor in or out. */
  lemma OthersStay(c: Config, s: System, act: Action, u: nat)
    requires Enabled(c, s, act) && u < |s.phases|
    requires u != act.t || act.ReadGuarded? || act.WriteGuarded?
    ensures |Step(c, s, act).phases| == |s.phases|
    ensures Inside(Step(c, s, act), u) <==> Inside(s, u)
  {
  }

  lemma OneEvent(a: Ideal, e: Event)
    ensures Accepts(a, [e]) <==> Permits(a, e)
    ensures AdvanceAll(a, [e]) == Advance(a, e)
  {
    assert [e][1..] == [];
  }

  /** Going in finds nobody inside. */
  lemma MovesArePermitted(c: Config, s: System, a: Ideal, act: Action)
    requires Enabled(c, s, act) && FlagInv(Step(c, s, act)) && HolderInv(s, a)
    requires !act.ReadGuarded? && !act.WriteGuarded?
    ensures Accepts(a, Observe(c, s, act))
    ensures HolderInv(Step(c, s, act), AdvanceAll(a, Observe(c, s, act)))
    ensures AdvanceAll(a, Observe(c, s, act)).mem == a.mem
  {
    var t, s' := act.t, Step(c, s, act);
    forall u | 0 <= u < |s.phases| && u != t
      ensures Inside(s', u) <==> Inside(s, u)
      ensures Inside(s', t) ==> !Inside(s, u)
    {
      OthersStay(c, s, act, u);
      OnlyOneInside(s', t, u);
    }
    OneEvent(a, Acquired(t));
    OneEvent(a, Released(t));
    var a' := AdvanceAll(a, Observe(c, s, act));
    if a.holder.Some? && a.holder.value != t {
      assert !Inside(s', t);
    }
  }

  ghost predicate Inv(c: Config, s: System, a: Ideal, o: nat) {
    FlagInv(s) && BufInv(c, s) && HolderInv(s, a) && DataInv(c, s, a, o)
  }

  /** Every step is allowed by the ideal lock, and leads to a related pair again. */
  lemma StepRefines(c: Config, s: System, a: Ideal, o: nat, act: Action) returns (o': nat)
    requires Proper(c, s) && Inv(c, s, a, o) && Enabled(c, s, act)
    ensures Accepts(a, Observe(c, s, act))
    ensures Inv(c, Step(c, s, act), AdvanceAll(a, Observe(c, s, act)), o')
  {
    StepKeepsFlagInv(c, s, act);
    StepKeepsBufInv(c, s, act);
    o' := StepKeepsDataInv(c, s, a, o, act);
    if act.ReadGuarded? || act.WriteGuarded? {
      OneEvent(a, Observe(c, s, act)[0]);
      forall u | 0 <= u < |s.phases| ensures Inside(Step(c, s, act), u) <==> Inside(s, u) {
        OthersStay(c, s, act, u);
      }
    } else {
      MovesArePermitted(c, s, a, act);
    }
  }

  lemma {:induction false} RunRefines(c: Config, s: System, a: Ideal, o: nat, acts: seq<Action>) returns (o': nat)
    requires Proper(c, s) && Inv(c, s, a, o) && Runs(c, s, acts)
    ensures Accepts(a, Trace(c, s, acts))
    ensures Inv(c, After(c, s, acts), AdvanceAll(a, Trace(c, s, acts)), o')
    ensures |After(c, s, acts).phases| == |s.phases|
    decreases |acts|
  {
    if acts == [] {
      o' := o;
    } else {
      var e, s' := Observe(c, s, acts[0]), Step(c, s, acts[0]);
      var o1 := StepRefines(c, s, a, o, acts[0]);
      o' := RunRefines(c, s', AdvanceAll(a, e), o1, acts[1..]);
      AcceptsConcat(a, e, Trace(c, s', acts[1..]));
    }
  }

  lemma InitialInv(c: Config, s: System)
    requires Initial(s)
    ensures Inv(c, s, Ideal(None, s.hw.mem), 0)
  {
    forall x | x in c.guarded ensures View(s, 0, x) == Read(s.hw.mem, x) {}
  }

  // ---- What the protocol promises ----

  /** With android_atomic_acquire_store, two processors are never inside together: any number of
      processors, any number of rounds, any interleaving, any order of looking, any buffer delays. */
  lemma NeverTwoInside(c: Config, s: System, acts: seq<Action>, t: nat, u: nat)
    requires Proper(c, s) && Initial(s) && Runs(c, s, acts)
    requires t < u < |s.phases|
    ensures var s' := After(c, s, acts);
            |s'.phases| == |s.phases| && !(Inside(s', t) && Inside(s', u))
  {
    InitialInv(c, s);
    RunKeepsFlagInv(c, s, acts);
    OnlyOneInside(After(c, s, acts), t, u);
  }

  /** Everything observed could have been observed with an ideal lock over ordinary memory. */
  lemma FlagsAreALock(c: Config, s: System, acts: seq<Action>)
    requires Proper(c, s) && Initial(s) && Runs(c, s, acts)
    ensures Accepts(Ideal(None, s.hw.mem), Trace(c, s, acts))
  {
    InitialInv(c, s);
    var _ := RunRefines(c, s, Ideal(None, s.hw.mem), 0, acts);
  }

  /** Whoever is inside reads what was last written by anyone inside, although neither going in nor
      coming out executes a fence after the flag is raised. */
  lemma InsidersSeeAllEarlierWrites(c: Config, s: System, acts: seq<Action>, k: nat)
    requires Proper(c, s) && Initial(s) && Runs(c, s, acts)
    requires k < |Trace(c, s, acts)|
    ensures Orderly(Trace(c, s, acts), s.hw.mem, k)
  {
    FlagsAreALock(c, s, acts);
    AcceptedIsOrderly(s.hw.mem, Trace(c, s, acts), k);
  }

  /** The same seen from the state: a processor is inside exactly when the trace says so, and then it can at
      any time read any guarded word and gets the last value put there. */
  lemma InsiderSeesLatest(c: Config, s: System, acts: seq<Action>, t: nat, x: Addr)
    requires Proper(c, s) && Initial(s) && Runs(c, s, acts) && t < |s.phases| && x in c.guarded
    ensures var s', tr := After(c, s, acts), Trace(c, s, acts);
            && |s'.hw.bufs| == |s'.phases| == |s.phases|
            && (Inside(s', t) <==> Holder(tr) == Some(t))
            && (Inside(s', t) ==>
                  && Enabled(c, s', ReadGuarded(t, x))
                  && Observe(c, s', ReadGuarded(t, x)) == [Got(t, x, Latest(tr, x, Read(s.hw.mem, x)))])
  {
    InitialInv(c, s);
    var a := Ideal(None, s.hw.mem);
    var o := RunRefines(c, s, a, 0, acts);
    var s', tr := After(c, s, acts), Trace(c, s, acts);
    IdealStateFromTrace(s.hw.mem, tr, x);
    if Inside(s', t) {
      InsiderSeesAll(c, s', AdvanceAll(a, tr), o, t);
      assert View(s', t, x) == Read(AdvanceAll(a, tr).mem, x);
    }
  }

  /** Once a processor is outside and its stores have drained, its flag is down for all to see. */
  lemma OutsideFlagsComeDown(c: Config, s: System, acts: seq<Action>, t: nat)
    requires Proper(c, s) && Initial(s) && Runs(c, s, acts) && t < |s.phases|
    ensures var s' := After(c, s, acts);
            |s'.hw.bufs| == |s'.phases| == |s.phases| &&
            (s'.phases[t] == Outside && s'.hw.bufs[t] == [] ==> Read(s'.hw.mem, t) == DOWN)
  {
    InitialInv(c, s);
    RunKeepsFlagInv(c, s, acts);
  }

  // ---- Nobody is shut out ----

  ghost predicate Reaches(c: Config, s: System, s': System) {
    exists acts :: Runs(c, s, acts) && After(c, s, acts) == s'
  }

  lemma ReachesItself(c: Config, s: System)
    ensures Reaches(c, s, s)
  {
    assert Runs(c, s, []);
  }

  lemma ReachesVia(c: Config, s: System, act: Action, s': System, goal: System)
    requires Enabled(c, s, act) && Step(c, s, act) == s' && Reaches(c, s', goal)
    ensures Reaches(c, s, goal)
  {
    var rest :| Runs(c, s', rest) && After(c, s', rest) == goal;
    var acts := [act] + rest;
    assert acts[1..] == rest;
    assert Runs(c, s, acts);
  }

  lemma ReachesOn(c: Config, s: System, s': System, goal: System)
    requires Reaches(c, s, s') && Reaches(c, s', goal)
    ensures Reaches(c, s, goal)
  {
    var acts :| Runs(c, s, acts) && After(c, s, acts) == s';
    FollowRun(c, s, acts, goal);
  }

  lemma {:induction false} FollowRun(c: Config, s: System, acts: seq<Action>, goal: System)
    requires Runs(c, s, acts) && Reaches(c, After(c, s, acts), goal)
    ensures Reaches(c, s, goal)
    decreases |acts|
  {
    if acts == [] {
    } else {
      FollowRun(c, Step(c, s, acts[0]), acts[1..], goal);
      ReachesVia(c, s, acts[0], Step(c, s, acts[0]), goal);
    }
  }

  lemma OneStep(c: Config, s: System, act: Action)
    requires Enabled(c, s, act)
    ensures Reaches(c, s, Step(c, s, act))
  {
    ReachesItself(c, Step(c, s, act));
    ReachesVia(c, s, act, Step(c, s, act), Step(c, s, act));
  }

  lemma {:induction false} DrainsReach(c: Config, s: System, t: nat)
    requires t < |s.phases| == |s.hw.bufs|
    ensures Reaches(c, s, s.(hw := FlushAll(s.hw, t)))
    decreases |s.hw.bufs[t]|
  {
    if s.hw.bufs[t] == [] {
      ReachesItself(c, s);
    } else {
      var s' := Step(c, s, Drain(t));
      DrainsReach(c, s', t);
      ReachesVia(c, s, Drain(t), s', s.(hw := FlushAll(s.hw, t)));
    }
  }

  lemma {:induction false} RunKeepsFlagInv(c: Config, s: System, acts: seq<Action>)
    requires Proper(c, s) && FlagInv(s) && Runs(c, s, acts)
    ensures FlagInv(After(c, s, acts)) && |After(c, s, acts).phases| == |s.phases|
    decreases |acts|
  {
    if acts == [] {
    } else {
      StepKeepsFlagInv(c, s, acts[0]);
      RunKeepsFlagInv(c, Step(c, s, acts[0]), acts[1..]);
    }
  }

  /** Only t moves: its phase becomes p and its buffer empty. */
  predicate Moved(s: System, s': System, t: nat, p: Phase)
    requires t < |s.phases| == |s.hw.bufs|
  {
    s'.phases == s.phases[t := p] && s'.hw.bufs == s.hw.bufs[t := []]
  }

  /** A processor whose raise code is under way completes it. */
  lemma FinishesRaise(c: Config, s: System, t: nat) returns (s': System)
    requires Proper(c, s) && FlagInv(s) && t < |s.phases| && s.phases[t].Raising?
    ensures Reaches(c, s, s') && FlagInv(s') && Moved(s, s', t, Looking({}))
  {
    var s1 := s.(hw := FlushAll(s.hw, t));
    FlushedAll(s.hw, t, 0);
    DrainsReach(c, s, t);
    assert Enabled(c, s1, Raise(t));
    s' := Step(c, s1, Raise(t));
    OneStep(c, s1, Raise(t));
    ReachesOn(c, s, s1, s');
    KeptAlong(c, s, s');
  }

  lemma KeptAlong(c: Config, s: System, s': System)
    requires Proper(c, s) && FlagInv(s) && Reaches(c, s, s')
    ensures FlagInv(s') && |s'.phases| == |s.phases|
  {
    var acts :| Runs(c, s, acts) && After(c, s, acts) == s';
    RunKeepsFlagInv(c, s, acts);
  }

  lemma DrainsOutside(c: Config, s: System, t: nat) returns (s': System)
    requires Proper(c, s) && FlagInv(s) && t < |s.phases| && s.phases[t] == Outside
    ensures Reaches(c, s, s') && FlagInv(s') && Moved(s, s', t, Outside)
  {
    s' := s.(hw := FlushAll(s.hw, t));
    FlushedAll(s.hw, t, 0);
    DrainsReach(c, s, t);
    KeptAlong(c, s, s');
  }

  lemma Leaves(c: Config, s: System, t: nat) returns (s': System)
    requires Proper(c, s) && FlagInv(s) && t < |s.phases| && s.phases[t].Looking?
    ensures Reaches(c, s, s') && FlagInv(s') && Moved(s, s', t, Outside)
  {
    var s1 := Step(c, s, Lower(t));
    OneStep(c, s, Lower(t));
    StepKeepsFlagInv(c, s, Lower(t));
    s' := DrainsOutside(c, s1, t);
    ReachesOn(c, s, s1, s');
  }

  /** A processor comes out, and its stores drain. */
  lemma Retires(c: Config, s: System, t: nat) returns (s': System)
    requires Proper(c, s) && FlagInv(s) && t < |s.phases|
    ensures Reaches(c, s, s') && FlagInv(s') && Moved(s, s', t, Outside)
  {
    match s.phases[t]
    case Outside => s' := DrainsOutside(c, s, t);
    case Looking(_) => s' := Leaves(c, s, t);
    case Raising(_) =>
      var s1 := FinishesRaise(c, s, t);
      s' := Leaves(c, s1, t);
      ReachesOn(c, s, s1, s');
  }

  /** The processors below n, except t, are outside and have nothing left to drain. */
  predicate Retired(s: System, n: nat, t: nat) {
    |s.phases| == |s.hw.bufs| >= n &&
    forall u | 0 <= u < n && u != t :: s.phases[u] == Outside && s.hw.bufs[u] == []
  }

  lemma {:induction false} AllRetire(c: Config, s: System, n: nat, t: nat) returns (s': System)
    requires Proper(c, s) && FlagInv(s) && n <= |s.phases|
    ensures Reaches(c, s, s') && FlagInv(s') && |s'.phases| == |s.phases| && Retired(s', n, t)
  {
    if n == 0 {
      s' := s;
      ReachesItself(c, s);
    } else {
      var s1 := AllRetire(c, s, n - 1, t);
      if n - 1 == t {
        s' := s1;
      } else {
        s' := Retires(c, s1, n - 1);
        ReachesOn(c, s, s1, s');
      }
    }
  }

  /** The flag of a retired processor is down in memory; t sees it so. */
  lemma SeesDown(c: Config, s: System, t: nat, u: nat)
    requires FlagInv(s) && t < |s.phases| && u < |s.phases| && u != t
    requires s.phases[t].Looking? && s.phases[u] == Outside && s.hw.bufs[u] == []
    ensures Enabled(c, s, Look(t, u))
    ensures Step(c, s, Look(t, u)) == s.(phases := s.phases[t := Looking(s.phases[t].seen + {u})])
  {
    LookupClear(s.hw.bufs[t], s.hw.mem, u, FlagZone(|s.phases|));
  }

  lemma LooksOnce(c: Config, s: System, t: nat, u: nat) returns (s': System)
    requires Proper(c, s) && FlagInv(s) && t < |s.phases| && u < |s.phases| && u != t
    requires s.phases[t].Looking? && Retired(s, |s.phases|, t)
    ensures Reaches(c, s, s') && FlagInv(s') && |s'.phases| == |s.phases| && Retired(s', |s.phases|, t)
    ensures s'.phases[t] == Looking(s.phases[t].seen + {u})
  {
    SeesDown(c, s, t, u);
    s' := Step(c, s, Look(t, u));
    OneStep(c, s, Look(t, u));
    StepKeepsFlagInv(c, s, Look(t, u));
  }

  predicate SeenBelow(p: Phase, n: nat, t: nat) {
    p.Looking? && forall u | 0 <= u < n && u != t :: HasSeen(p, u)
  }

  lemma {:induction false} LooksAround(c: Config, s: System, n: nat, t: nat) returns (s': System)
    requires Proper(c, s) && FlagInv(s) && n <= |s.phases| && t < |s.phases|
    requires s.phases[t].Looking? && Retired(s, |s.phases|, t)
    ensures Reaches(c, s, s') && FlagInv(s') && |s'.phases| == |s.phases| && Retired(s', |s.phases|, t)
    ensures SeenBelow(s'.phases[t], n, t)
  {
    if n == 0 {
      s' := s;
      ReachesItself(c, s);
    } else {
      var s1 := LooksAround(c, s, n - 1, t);
      if n - 1 == t {
        s' := s1;
      } else {
        s' := LooksOnce(c, s1, t, n - 1);
        ReachesOn(c, s, s1, s');
        SeesMore(s1.phases[t], n - 1, t);
      }
    }
  }

  lemma SeesMore(p: Phase, n: nat, t: nat)
    requires SeenBelow(p, n, t)
    ensures SeenBelow(Looking(p.seen + {n}), n + 1, t)
  {
    forall u | 0 <= u < n + 1 && u != t ensures HasSeen(Looking(p.seen + {n}), u) {
      assert u < n ==> HasSeen(p, u);
    }
  }

  /** A processor, wherever it is, comes to look. */
  lemma ComesToLook(c: Config, s: System, t: nat) returns (s': System)
    requires Proper(c, s) && FlagInv(s) && t < |s.phases| && Retired(s, |s.phases|, t)
    ensures Reaches(c, s, s') && FlagInv(s') && |s'.phases| == |s.phases| && Retired(s', |s.phases|, t)
    ensures s'.phases[t].Looking?
  {
    if s.phases[t].Looking? {
      s' := s;
      ReachesItself(c, s);
    } else {
      var s1 := s;
      ReachesItself(c, s);
      if s.phases[t] == Outside {
        s1 := Step(c, s, Raise(t));
        OneStep(c, s, Raise(t));
        StepKeepsFlagInv(c, s, Raise(t));
      }
      s' := FinishesRaise(c, s1, t);
      ReachesOn(c, s, s1, s');
    }
  }

  /** From every reachable state every processor can still get in: the others need to do no more than
      complete what they have begun and come out. */
  lemma EveryoneCanGetIn(c: Config, s: System, acts: seq<Action>, t: nat) returns (goal: System)
    requires Proper(c, s) && Initial(s) && Runs(c, s, acts) && t < |s.phases|
    ensures Reaches(c, After(c, s, acts), goal) && |goal.phases| == |s.phases| && Inside(goal, t)
  {
    InitialInv(c, s);
    RunKeepsFlagInv(c, s, acts);
    var s0 := After(c, s, acts);
    var s1 := AllRetire(c, s0, |s.phases|, t);
    var s2 := ComesToLook(c, s1, t);
    goal := LooksAround(c, s2, |s.phases|, t);
    ReachesOn(c, s1, s2, goal);
    ReachesOn(c, s0, s1, goal);
  }

  // ---- Without the fence ----

  const UNFENCED: Config := Config(Unfenced, iset{})

  /** Two processors whose raised flags are still in their store buffers. */
  function Unseen(p: Phase, q: Phase): System {
    System(Tso.State(map[], [[Write(0, UP)], [Write(1, UP)]]), [p, q])
  }

  function Quiet(): System {
    System(Tso.State(map[], [[], []]), [Outside, Outside])
  }

  function OneRaised(): System {
    System(Tso.State(map[], [[Write(0, UP)], []]), [Looking({}), Outside])
  }

  lemma FirstLooks(q: Phase)
    ensures Enabled(UNFENCED, Unseen(Looking({}), q), Look(0, 1))
    ensures Step(UNFENCED, Unseen(Looking({}), q), Look(0, 1)) == Unseen(Looking({1}), q)
  {
    LookupAppend([], map[], Write(0, UP), 1);
    var none: set<nat> := {};
    assert none + {1} == {1};
    assert [Looking({}), q][0 := Looking({1})] == [Looking({1}), q];
  }

  lemma SecondLooks(p: Phase)
    ensures Enabled(UNFENCED, Unseen(p, Looking({})), Look(1, 0))
    ensures Step(UNFENCED, Unseen(p, Looking({})), Look(1, 0)) == Unseen(p, Looking({0}))
  {
    LookupAppend([], map[], Write(1, UP), 0);
    var none: set<nat> := {};
    assert none + {0} == {0};
    assert [p, Looking({})][1 := Looking({0})] == [p, Looking({0})];
  }

  lemma FirstRaises()
    ensures Enabled(UNFENCED, Quiet(), Raise(0)) && Step(UNFENCED, Quiet(), Raise(0)) == OneRaised()
  {
    assert [Outside, Outside][0 := Looking({})] == [Looking({}), Outside];
    assert [] + [Write(0, UP)] == [Write(0, UP)];
    assert [[], []][0 := [Write(0, UP)]] == [[Write(0, UP)], []];
  }

  lemma SecondRaises()
    ensures Enabled(UNFENCED, OneRaised(), Raise(1))
    ensures Step(UNFENCED, OneRaised(), Raise(1)) == Unseen(Looking({}), Looking({}))
  {
    assert [Looking({}), Outside][1 := Looking({})] == [Looking({}), Looking({})];
    assert [] + [Write(1, UP)] == [Write(1, UP)];
    assert [[Write(0, UP)], []][1 := [Write(1, UP)]] == [[Write(0, UP)], [Write(1, UP)]];
  }

  lemma LooksReach(goal: System)
    requires goal == Unseen(Looking({1}), Looking({0}))
    ensures Reaches(UNFENCED, Unseen(Looking({}), Looking({})), goal)
  {
    ReachesItself(UNFENCED, goal);
    SecondLooks(Looking({1}));
    ReachesVia(UNFENCED, Unseen(Looking({1}), Looking({})), Look(1, 0), goal, goal);
    FirstLooks(Looking({}));
    ReachesVia(UNFENCED, Unseen(Looking({}), Looking({})), Look(0, 1), Unseen(Looking({1}), Looking({})), goal);
  }

  lemma RaisesReach(goal: System)
    requires Reaches(UNFENCED, Unseen(Looking({}), Looking({})), goal)
    ensures Reaches(UNFENCED, Quiet(), goal)
  {
    SecondRaises();
    ReachesVia(UNFENCED, OneRaised(), Raise(1), Unseen(Looking({}), Looking({})), goal);
    FirstRaises();
    ReachesVia(UNFENCED, Quiet(), Raise(0), OneRaised(), goal);
  }

  lemma EndsOfTheRun()
    ensures Initial(Quiet())
    ensures var goal := Unseen(Looking({1}), Looking({0}));
            |goal.phases| == 2 && Inside(goal, 0) && Inside(goal, 1)
  {
  }

  /** The fence is needed: raise the flags with android_atomic_release_store instead, and two
      processors get inside together while both raised flags sit in the store buffers. */
  lemma WithoutTheFenceTwoGetInside()
    ensures exists s, s' :: Reaches(UNFENCED, s, s') && Initial(s) && |s'.phases| == 2 && Inside(s', 0) && Inside(s', 1)
  {
    var goal := Unseen(Looking({1}), Looking({0}));
    LooksReach(goal);
    RaisesReach(goal);
    EndsOfTheRun();
  }
}
