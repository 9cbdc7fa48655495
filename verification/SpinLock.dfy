/** The lock recipe of cutils/atomic.h on x86-TSO, without a single fence:
    retry android_atomic_acquire_cas until it returns zero, use the protected words with plain
    loads and stores, then android_atomic_release_store. Any number of processors, and any other
    code running beside the lock, so the result holds for each of several locks at once. */
module SpinLock {
  import opened IdealLock
  import opened Int32
  import opened Options
  import opened Tso
  import AtomicSpec

  const FREE: int32 := 0
  const HELD: int32 := 1

  /** The lock word and the words it protects. */
  datatype Config = Config(lock: Addr, guarded: iset<Addr>) {
    ghost predicate Valid() { lock !in guarded }
    ghost function Zone(): iset<Addr> { guarded + iset{lock} }
  }

  /** `holds[t]`: processor t has seen its CAS return zero and has not yet issued the release store. */
  datatype System = System(hw: Tso.State, holds: seq<bool>)

  datatype Action =
    | TryAcquire(t: nat)
    | ReadGuarded(t: nat, a: Addr)
    | WriteGuarded(t: nat, a: Addr, v: int32)
    | Unlock(t: nat)
    | Unrelated(t: nat, i: Instr)
    | Drain(t: nat)

  /** The single instruction each step executes. */
  function Code(c: Config, act: Action): Instr
    requires !act.Drain?
  {
    match act
    case TryAcquire(_) => AcquireCas(FREE, HELD, c.lock)[0]
    case ReadGuarded(_, a) => Load(a)
    case WriteGuarded(_, a, v) => Store(a, v)
    case Unlock(_) => ReleaseStore(FREE, c.lock)[0]
    case Unrelated(_, i) => i
  }

  ghost predicate Enabled(c: Config, s: System, act: Action) {
    && act.t < |s.holds| == |s.hw.bufs|
    && (if act.Drain? then CanFlush(s.hw, act.t) else Tso.Enabled(s.hw, act.t, Code(c, act)))
    && match act
       case TryAcquire(t) => !s.holds[t]
       case ReadGuarded(t, a) => s.holds[t] && a in c.guarded
       case WriteGuarded(t, a, _) => s.holds[t] && a in c.guarded
       case Unlock(t) => s.holds[t]
       case Unrelated(_, i) => Avoids(i, c.Zone())
       case Drain(_) => true
  }

  ghost function Step(c: Config, s: System, act: Action): System
    requires Enabled(c, s, act)
  {
    if act.Drain? then s.(hw := Flush(s.hw, act.t))
    else
      var i := Code(c, act);
      var hw := Exec(s.hw, act.t, i);
      match act
      case TryAcquire(t) =>
        var status := AtomicSpec.Returned(AtomicSpec.Cas(FREE, HELD), Result(s.hw, t, i));
        System(hw, s.holds[t := status == 0])
      case Unlock(t) => System(hw, s.holds[t := false])
      case _ => s.(hw := hw)
  }

  /** What the client observes. A failed CAS and unrelated code are silent. */
  ghost function Observe(c: Config, s: System, act: Action): seq<Event>
    requires Enabled(c, s, act)
  {
    match act
    case TryAcquire(t) => if Step(c, s, act).holds[t] then [Acquired(t)] else []
    case ReadGuarded(t, a) => [Got(t, a, Result(s.hw, t, Code(c, act)))]
    case WriteGuarded(t, a, v) => [Put(t, a, v)]
    case Unlock(t) => [Released(t)]
    case _ => []
  }

  ghost predicate Runs(c: Config, s: System, acts: seq<Action>)
    decreases |acts|
  {
    acts == [] || (Enabled(c, s, acts[0]) && Runs(c, Step(c, s, acts[0]), acts[1..]))
  }

  ghost function After(c: Config, s: System, acts: seq<Action>): System
    requires Runs(c, s, acts)
    decreases |acts|
  {
    if acts == [] then s else After(c, Step(c, s, acts[0]), acts[1..])
  }

  ghost function Trace(c: Config, s: System, acts: seq<Action>): seq<Event>
    requires Runs(c, s, acts)
    decreases |acts|
  {
    if acts == [] then []
    else Observe(c, s, acts[0]) + Trace(c, Step(c, s, acts[0]), acts[1..])
  }

  /** Nobody holds the lock, the lock word is free and every store buffer is empty. */
  ghost predicate Initial(c: Config, s: System) {
    && |s.holds| == |s.hw.bufs|
    && Read(s.hw.mem, c.lock) == FREE
    && forall t | 0 <= t < |s.holds| :: !s.holds[t] && s.hw.bufs[t] == []
  }

  // ---- Why the machine implements it ----

  /** Position k of `buf` is the release store still waiting to reach memory: guarded words
      may only be written before it. */
  ghost predicate ReleaseAt(c: Config, buf: Buffer, k: nat) {
    && k < |buf|
    && buf[k] == Write(c.lock, FREE)
    && Clear(buf[..k], iset{c.lock})
    && Clear(buf[k + 1..], c.Zone())
  }

  /** `o` owns the lock word: it holds the lock, or its release store is still buffered. */
  ghost predicate Owns(c: Config, s: System, a: Ideal, o: nat)
    requires o < |s.holds| == |s.hw.bufs|
  {
    var buf := s.hw.bufs[o];
    && Read(s.hw.mem, c.lock) == HELD
    && (forall x | x in c.guarded :: Lookup(buf, s.hw.mem, x) == Read(a.mem, x))
    && (if s.holds[o] then a.holder == Some(o) && Clear(buf, iset{c.lock})
        else a.holder == None && exists k: nat :: ReleaseAt(c, buf, k))
  }

  ghost predicate Inv(c: Config, s: System, a: Ideal, owner: Option<nat>) {
    && c.Valid()
    && |s.holds| == |s.hw.bufs|
    && (forall t | 0 <= t < |s.holds| && owner != Some(t) :: !s.holds[t] && Clear(s.hw.bufs[t], c.Zone()))
    && match owner
       case None =>
         && Read(s.hw.mem, c.lock) == FREE
         && a.holder == None
         && forall x | x in c.guarded :: Read(s.hw.mem, x) == Read(a.mem, x)
       case Some(o) => o < |s.holds| && Owns(c, s, a, o)
  }

  lemma ReleaseMovesUp(c: Config, buf: Buffer, k: nat)
    requires ReleaseAt(c, buf, k) && k > 0
    ensures buf[0].addr != c.lock && ReleaseAt(c, buf[1..], k - 1)
  {
    assert buf[..k][0] == buf[0];
    assert buf[1..][..k - 1] == buf[..k][1..];
    assert buf[1..][k..] == buf[k + 1..];
  }

  lemma OwnerDrains(c: Config, s: System, a: Ideal, t: nat) returns (owner': Option<nat>)
    requires Inv(c, s, a, Some(t)) && Enabled(c, s, Drain(t))
    ensures Inv(c, Step(c, s, Drain(t)), a, owner')
  {
    var s', buf := Step(c, s, Drain(t)), s.hw.bufs[t];
    owner' := Some(t);
    forall x | x in c.guarded ensures Lookup(s'.hw.bufs[t], s'.hw.mem, x) == Read(a.mem, x) {
      LookupFlush(buf, s.hw.mem, x);
    }
    if s.holds[t] {
      assert buf[0].addr in iset{c.lock} <==> buf[0].addr == c.lock;
    } else {
      var k: nat :| ReleaseAt(c, buf, k);
      if k == 0 {
        owner' := None;
        forall x | x in c.guarded ensures Read(s'.hw.mem, x) == Read(a.mem, x) {
          LookupClear(s'.hw.bufs[t], s'.hw.mem, x, c.Zone());
        }
      } else {
        ReleaseMovesUp(c, buf, k);
      }
    }
  }

  lemma DrainStep(c: Config, s: System, a: Ideal, owner: Option<nat>, t: nat) returns (owner': Option<nat>)
    requires Inv(c, s, a, owner) && Enabled(c, s, Drain(t))
    ensures Inv(c, Step(c, s, Drain(t)), a, owner')
  {
    owner' := owner;
    if owner == Some(t) {
      owner' := OwnerDrains(c, s, a, t);
    } else {
      var s', w := Step(c, s, Drain(t)), s.hw.bufs[t][0];
      assert w.addr !in c.Zone();
      if owner.Some? {
        forall x | x in c.guarded
          ensures Lookup(s'.hw.bufs[owner.value], s'.hw.mem, x) == Read(a.mem, x)
        {
          LookupFrame(s.hw.bufs[owner.value], s.hw.mem, x, w.addr, w.val);
        }
      }
    }
  }

  lemma UnrelatedStep(c: Config, s: System, a: Ideal, owner: Option<nat>, t: nat, i: Instr)
    requires Inv(c, s, a, owner) && Enabled(c, s, Unrelated(t, i))
    ensures Inv(c, Step(c, s, Unrelated(t, i)), a, owner)
  {
    var s' := Step(c, s, Unrelated(t, i));
    if owner.Some? {
      var o := owner.value;
      forall x | x in c.guarded
        ensures Lookup(s'.hw.bufs[o], s'.hw.mem, x) == Read(a.mem, x)
      {
        match i
        case Store(b, v) => LookupAppend(s.hw.bufs[o], s.hw.mem, Write(b, v), x);
        case LockCmpxchg(b, _, n) => LookupFrame(s.hw.bufs[o], s.hw.mem, x, b, n);
        case LockXadd(b, inc) => LookupFrame(s.hw.bufs[o], s.hw.mem, x, b, Wrap(Read(s.hw.mem, b) + inc));
        case _ =>
      }
      if !s.holds[o] {
        var k: nat :| ReleaseAt(c, s.hw.bufs[o], k);
        assert s'.hw.bufs[o][..k] == s.hw.bufs[o][..k];
        assert ReleaseAt(c, s'.hw.bufs[o], k);
      }
    }
  }

  lemma WriteStep(c: Config, s: System, a: Ideal, owner: Option<nat>, t: nat, x: Addr, v: int32)
    requires Inv(c, s, a, owner) && Enabled(c, s, WriteGuarded(t, x, v))
    ensures Permits(a, Put(t, x, v))
    ensures Inv(c, Step(c, s, WriteGuarded(t, x, v)), Advance(a, Put(t, x, v)), owner)
  {
    forall y | y in c.guarded
      ensures Lookup(s.hw.bufs[t] + [Write(x, v)], s.hw.mem, y) == Read(a.mem[x := v], y)
    {
      LookupAppend(s.hw.bufs[t], s.hw.mem, Write(x, v), y);
    }
  }

  lemma UnlockStep(c: Config, s: System, a: Ideal, owner: Option<nat>, t: nat)
    requires Inv(c, s, a, owner) && Enabled(c, s, Unlock(t))
    ensures Permits(a, Released(t))
    ensures Inv(c, Step(c, s, Unlock(t)), Advance(a, Released(t)), owner)
  {
    var s' := Step(c, s, Unlock(t));
    var buf := s.hw.bufs[t];
    forall y | y in c.guarded
      ensures Lookup(s'.hw.bufs[t], s.hw.mem, y) == Read(a.mem, y)
    {
      LookupAppend(buf, s.hw.mem, Write(c.lock, FREE), y);
    }
    assert (buf + [Write(c.lock, FREE)])[..|buf|] == buf;
    assert ReleaseAt(c, s'.hw.bufs[t], |buf|);
  }

  lemma AcquireStep(c: Config, s: System, a: Ideal, owner: Option<nat>, t: nat) returns (owner': Option<nat>)
    requires Inv(c, s, a, owner) && Enabled(c, s, TryAcquire(t))
    ensures var s' := Step(c, s, TryAcquire(t));
            if s'.holds[t] then Permits(a, Acquired(t)) && Inv(c, s', Advance(a, Acquired(t)), owner')
            else Inv(c, s', a, owner')
  {
    owner' := if Read(s.hw.mem, c.lock) == FREE then Some(t) else owner;
  }

  /** Every step of the machine is allowed by the ideal lock, and leads to a related pair again. */
  lemma StepRefines(c: Config, s: System, a: Ideal, owner: Option<nat>, act: Action) returns (owner': Option<nat>)
    requires Inv(c, s, a, owner) && Enabled(c, s, act)
    ensures Accepts(a, Observe(c, s, act))
    ensures Inv(c, Step(c, s, act), AdvanceAll(a, Observe(c, s, act)), owner')
  {
    owner' := owner;
    match act
    case TryAcquire(t) => owner' := AcquireStep(c, s, a, owner, t);
    case WriteGuarded(t, x, v) => WriteStep(c, s, a, owner, t, x, v);
    case Unlock(t) => UnlockStep(c, s, a, owner, t);
    case Unrelated(t, i) => UnrelatedStep(c, s, a, owner, t, i);
    case Drain(t) => owner' := DrainStep(c, s, a, owner, t);
    case ReadGuarded(t, x) =>
  }

  lemma {:induction false} RunRefines(c: Config, s: System, a: Ideal, owner: Option<nat>, acts: seq<Action>)
    returns (owner': Option<nat>)
    requires Inv(c, s, a, owner) && Runs(c, s, acts)
    ensures Accepts(a, Trace(c, s, acts))
    ensures Inv(c, After(c, s, acts), AdvanceAll(a, Trace(c, s, acts)), owner')
    decreases |acts|
  {
    if acts == [] {
      owner' := owner;
    } else {
      var e := Observe(c, s, acts[0]);
      var s' := Step(c, s, acts[0]);
      var o := StepRefines(c, s, a, owner, acts[0]);
      owner' := RunRefines(c, s', AdvanceAll(a, e), o, acts[1..]);
      AcceptsConcat(a, e, Trace(c, s', acts[1..]));
    }
  }

  // ---- What clients get ----

  /** Everything clients observe under x86-TSO could have been observed with an ideal lock over
      ordinary memory, and never do two processors hold the lock. */
  lemma LockIsSequentiallyConsistent(c: Config, s: System, acts: seq<Action>)
    requires c.Valid() && Initial(c, s) && Runs(c, s, acts)
    ensures Accepts(Ideal(None, s.hw.mem), Trace(c, s, acts))
    ensures var s' := After(c, s, acts);
            forall t, u | 0 <= t < u < |s'.holds| :: !(s'.holds[t] && s'.holds[u])
  {
    var owner := RunRefines(c, s, Ideal(None, s.hw.mem), None, acts);
  }

  /** In any reachable state the lock word in memory reads FREE exactly when no processor holds the
      lock and no release store is waiting in a buffer; so that is exactly when a CAS succeeds. */
  lemma CasSucceedsExactlyWhenFree(c: Config, s: System, acts: seq<Action>, t: nat)
    requires c.Valid() && Initial(c, s) && Runs(c, s, acts)
    requires Enabled(c, After(c, s, acts), TryAcquire(t))
    ensures var s' := After(c, s, acts);
            Step(c, s', TryAcquire(t)).holds[t] <==>
            forall u | 0 <= u < |s'.holds| :: !s'.holds[u] && Clear(s'.hw.bufs[u], iset{c.lock})
  {
    var s' := After(c, s, acts);
    var owner := RunRefines(c, s, Ideal(None, s.hw.mem), None, acts);
    if owner.Some? && !s'.holds[owner.value] {
      var k: nat :| ReleaseAt(c, s'.hw.bufs[owner.value], k);
      assert s'.hw.bufs[owner.value][k].addr in iset{c.lock};
    }
  }

  /** Every guarded read, in every run, is made by the current holder and returns the last value
      any holder put there; acquisitions, puts and releases alternate as the lock demands. */
  lemma HoldersSeeAllEarlierWrites(c: Config, s: System, acts: seq<Action>, k: nat)
    requires c.Valid() && Initial(c, s) && Runs(c, s, acts)
    requires k < |Trace(c, s, acts)|
    ensures Orderly(Trace(c, s, acts), s.hw.mem, k)
  {
    LockIsSequentiallyConsistent(c, s, acts);
    AcceptedIsOrderly(s.hw.mem, Trace(c, s, acts), k);
  }

  /** The same seen from the state: a processor holds the lock exactly when the trace says so, and then it
      can at any time read any guarded word and gets the last value put there. */
  lemma HolderSeesLatest(c: Config, s: System, acts: seq<Action>, t: nat, x: Addr)
    requires c.Valid() && Initial(c, s) && Runs(c, s, acts)
    requires t < |After(c, s, acts).holds| && x in c.guarded
    ensures var s', tr := After(c, s, acts), Trace(c, s, acts);
            && |s'.hw.bufs| == |s'.holds|
            && (s'.holds[t] <==> Holder(tr) == Some(t))
            && (s'.holds[t] ==>
                  && Enabled(c, s', ReadGuarded(t, x))
                  && Observe(c, s', ReadGuarded(t, x)) == [Got(t, x, Latest(tr, x, Read(s.hw.mem, x)))])
  {
    var owner := RunRefines(c, s, Ideal(None, s.hw.mem), None, acts);
    IdealStateFromTrace(s.hw.mem, Trace(c, s, acts), x);
  }

  // ---- Nobody is shut out ----

  ghost predicate Reaches(c: Config, s: System, s': System) {
    exists acts :: Runs(c, s, acts) && After(c, s, acts) == s'
  }

  lemma ReachesItself(c: Config, s: System)
    ensures Reaches(c, s, s)
  {
    assert Runs(c, s, []);
  }

  lemma ReachesVia(c: Config, s: System, act: Action, goal: System)
    requires Enabled(c, s, act) && Reaches(c, Step(c, s, act), goal)
    ensures Reaches(c, s, goal)
  {
    var rest :| Runs(c, Step(c, s, act), rest) && After(c, Step(c, s, act), rest) == goal;
    var acts := [act] + rest;
    assert acts[1..] == rest;
    assert Runs(c, s, acts);
  }

  lemma {:induction false} DrainsReach(c: Config, s: System, t: nat, goal: System)
    requires t < |s.holds| == |s.hw.bufs| && Reaches(c, s.(hw := FlushAll(s.hw, t)), goal)
    ensures Reaches(c, s, goal)
    decreases |s.hw.bufs[t]|
  {
    if s.hw.bufs[t] == [] {
    } else {
      DrainsReach(c, Step(c, s, Drain(t)), t, goal);
      ReachesVia(c, s, Drain(t), goal);
    }
  }

  /** When `o` sees the lock free and nobody else has a store to it, t gets it once both have drained. */
  lemma GetsIt(c: Config, s: System, o: nat, t: nat) returns (goal: System)
    requires o < |s.holds| == |s.hw.bufs| && t < |s.holds| && !s.holds[t]
    requires Lookup(s.hw.bufs[o], s.hw.mem, c.lock) == FREE
    requires t != o ==> Clear(s.hw.bufs[t], iset{c.lock})
    ensures Reaches(c, s, goal) && t < |goal.holds| && goal.holds[t]
  {
    var s1 := s.(hw := FlushAll(s.hw, o));
    FlushedAll(s.hw, o, c.lock);
    var s2 := s1.(hw := FlushAll(s1.hw, t));
    FlushedAll(s1.hw, t, c.lock);
    if t != o { LookupClear(s1.hw.bufs[t], s1.hw.mem, c.lock, iset{c.lock}); }
    goal := Step(c, s2, TryAcquire(t));
    ReachesItself(c, goal);
    ReachesVia(c, s2, TryAcquire(t), goal);
    DrainsReach(c, s1, t, goal);
    DrainsReach(c, s, o, goal);
  }

  /** From every reachable state every processor can still get the lock: the holder, if there is one, needs
      to do no more than unlock, and the buffers to drain. */
  lemma EveryoneCanAcquire(c: Config, s: System, acts: seq<Action>, t: nat) returns (goal: System)
    requires c.Valid() && Initial(c, s) && Runs(c, s, acts) && t < |After(c, s, acts).holds|
    ensures Reaches(c, After(c, s, acts), goal) && t < |goal.holds| && goal.holds[t]
  {
    var s0 := After(c, s, acts);
    var owner := RunRefines(c, s, Ideal(None, s.hw.mem), None, acts);
    if s0.holds[t] {
      goal := s0;
      ReachesItself(c, s0);
    } else if owner == None {
      LookupClear(s0.hw.bufs[t], s0.hw.mem, c.lock, c.Zone());
      goal := GetsIt(c, s0, t, t);
    } else if s0.holds[owner.value] {
      var o := owner.value;
      var s1 := Step(c, s0, Unlock(o));
      LookupAppend(s0.hw.bufs[o], s0.hw.mem, Write(c.lock, FREE), c.lock);
      goal := GetsIt(c, s1, o, t);
      ReachesVia(c, s0, Unlock(o), goal);
    } else {
      var o := owner.value;
      var k: nat :| ReleaseAt(c, s0.hw.bufs[o], k);
      LookupNewest(s0.hw.bufs[o], s0.hw.mem, k);
      goal := GetsIt(c, s0, o, t);
    }
  }
}
