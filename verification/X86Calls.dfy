/** The operations of the x86 headers as one processor runs them, while the other processors and all
    store buffers do what they like between any two of its instructions. The interference is a finite
    schedule the code does not know. */
module X86Calls {
  import opened Int32
  import opened Tso
  import opened AtomicSpec

  /** Something that happens without the calling processor: a buffered store, its own or another's,
      reaches memory; or another processor executes an instruction. */
  datatype Event = Drains(t: nat) | Executes(t: nat, i: Instr)

  /** Whether the event can happen now. */
  predicate Possible(s: Tso.State, me: nat, e: Event) {
    match e
    case Drains(t) => CanFlush(s, t)
    case Executes(t, i) => t != me && Enabled(s, t, i)
  }

  /** Impossible events are skipped. */
  function Happen(s: Tso.State, me: nat, e: Event): Tso.State {
    if !Possible(s, me, e) then s
    else match e
         case Drains(t) => Flush(s, t)
         case Executes(t, i) => Exec(s, t, i)
  }

  function Play(s: Tso.State, me: nat, es: seq<Event>): Tso.State {
    if es == [] then s else Happen(Play(s, me, es[..|es| - 1]), me, es[|es| - 1])
  }

  /** The event writes the word at `a` in memory on behalf of another processor. */
  predicate Hits(s: Tso.State, me: nat, e: Event, a: Addr) {
    && Possible(s, me, e)
    && e.t != me
    && match e
       case Drains(t) => s.bufs[t][0].addr == a
       case Executes(_, i) => (i.LockCmpxchg? || i.LockXadd?) && i.a == a
  }

  function CountHits(s: Tso.State, me: nat, es: seq<Event>, a: Addr): nat {
    if es == [] then 0
    else CountHits(s, me, es[..|es| - 1], a)
         + if Hits(Play(s, me, es[..|es| - 1]), me, es[|es| - 1], a) then 1 else 0
  }

  lemma {:induction false} PlayConcat(s: Tso.State, me: nat, es: seq<Event>, fs: seq<Event>, a: Addr)
    ensures Play(s, me, es + fs) == Play(Play(s, me, es), me, fs)
    ensures CountHits(s, me, es + fs, a) == CountHits(s, me, es, a) + CountHits(Play(s, me, es), me, fs, a)
    decreases |fs|
  {
    if fs == [] {
      assert es + fs == es;
    } else {
      PlayConcat(s, me, es, fs[..|fs| - 1], a);
      assert (es + fs)[..|es + fs| - 1] == es + fs[..|fs| - 1];
    }
  }

  lemma {:induction false} PlayKeepsSize(s: Tso.State, me: nat, es: seq<Event>)
    ensures |Play(s, me, es).bufs| == |s.bufs|
  {
    if es == [] {
    } else {
      PlayKeepsSize(s, me, es[..|es| - 1]);
    }
  }

  lemma {:induction false} OwnBufferStaysEmpty(s: Tso.State, me: nat, es: seq<Event>)
    requires me < |s.bufs| && s.bufs[me] == []
    ensures var s' := Play(s, me, es); me < |s'.bufs| && s'.bufs[me] == []
  {
    if es == [] {
    } else {
      OwnBufferStaysEmpty(s, me, es[..|es| - 1]);
    }
  }

  /** What the processor sees at `a` only changes when another processor writes there. */
  lemma UnhitStep(s: Tso.State, me: nat, e: Event, a: Addr)
    requires me < |s.bufs| && !Hits(s, me, e, a)
    ensures var s' := Happen(s, me, e);
            |s'.bufs| == |s.bufs| && Lookup(s'.bufs[me], s'.mem, a) == Lookup(s.bufs[me], s.mem, a)
  {
    if Possible(s, me, e) {
      match e
      case Drains(t) =>
        if t == me { LookupFlush(s.bufs[me], s.mem, a); }
        else { LookupFrame(s.bufs[me], s.mem, a, s.bufs[t][0].addr, s.bufs[t][0].val); }
      case Executes(t, i) =>
        match i
        case LockCmpxchg(b, _, n) => LookupFrame(s.bufs[me], s.mem, a, b, n);
        case LockXadd(b, inc) => LookupFrame(s.bufs[me], s.mem, a, b, Wrap(Read(s.mem, b) + inc));
        case _ =>
    }
  }

  lemma {:induction false} UnhitView(s: Tso.State, me: nat, es: seq<Event>, a: Addr)
    requires me < |s.bufs| && CountHits(s, me, es, a) == 0
    ensures var s' := Play(s, me, es);
            |s'.bufs| == |s.bufs| && Lookup(s'.bufs[me], s'.mem, a) == Lookup(s.bufs[me], s.mem, a)
  {
    if es == [] {
    } else {
      UnhitView(s, me, es[..|es| - 1], a);
      UnhitStep(Play(s, me, es[..|es| - 1]), me, es[|es| - 1], a);
    }
  }

  /** Undisturbed, the processor finds in memory what it saw before, once its own stores have drained. */
  lemma UnhitMemory(s: Tso.State, me: nat, es: seq<Event>, a: Addr)
    requires me < |s.bufs| && CountHits(s, me, es, a) == 0
    requires var s' := Play(s, me, es); me < |s'.bufs| && s'.bufs[me] == []
    ensures Read(Play(s, me, es).mem, a) == Lookup(s.bufs[me], s.mem, a)
  {
    UnhitView(s, me, es, a);
  }

  class Processor {
    const me: nat
    var s: Tso.State
    var schedule: seq<seq<Event>>

    constructor (me: nat, start: Tso.State, sched: seq<seq<Event>>)
      ensures this.me == me && s == start && schedule == sched
    {
      this.me, s, schedule := me, start, sched;
    }

    ghost predicate Valid() reads this { me < |s.bufs| }

    /** The others move. */
    method Yield() returns (ghost seen: seq<Event>)
      requires Valid()
      modifies `s, `schedule
      ensures Valid() && s == Play(old(s), me, seen)
      ensures |schedule| <= |old(schedule)| && (seen != [] ==> |schedule| < |old(schedule)|)
    {
      seen := [];
      if schedule != [] {
        seen := schedule[0];
        PlayKeepsSize(s, me, seen);
        s := Play(s, me, schedule[0]);
        schedule := schedule[1..];
      }
    }

    /** What mfence and every lock prefix wait for: the processor's own stores drain, oldest first. */
    method AwaitDrained(ghost a: Addr) returns (ghost seen: seq<Event>)
      requires Valid()
      modifies `s, `schedule
      ensures Valid() && s == Play(old(s), me, seen) && s.bufs[me] == []
      ensures |schedule| <= |old(schedule)| && (CountHits(old(s), me, seen, a) > 0 ==> |schedule| < |old(schedule)|)
    {
      seen := Yield();
      while s.bufs[me] != []
        invariant Valid() && s == Play(old(s), me, seen)
        invariant |schedule| <= |old(schedule)| && (CountHits(old(s), me, seen, a) > 0 ==> |schedule| < |old(schedule)|)
        decreases |schedule|, |s.bufs[me]|
      {
        var own := [Drains(me)];
        assert own[..0] == [];
        PlayConcat(old(s), me, seen, own, a);
        s := Flush(s, me);
        seen := seen + own;
        ghost var more := Yield();
        PlayConcat(old(s), me, seen, more, a);
        seen := seen + more;
      }
    }

    /** android_atomic_acquire_load. */
    method AcquireLoad(a: Addr) returns (value: int32, ghost seen: seq<Event>)
      requires Valid()
      modifies `s, `schedule
      ensures Valid() && s == Play(old(s), me, seen) && value == Lookup(s.bufs[me], s.mem, a)
      ensures |schedule| <= |old(schedule)| && (seen != [] ==> |schedule| < |old(schedule)|)
    {
      seen := Yield();
      value := Result(s, me, Tso.AcquireLoad(a)[0]);
    }

    /** android_atomic_release_load: the fence keeps the load from being forwarded. */
    method ReleaseLoad(a: Addr) returns (value: int32, ghost seen: seq<Event>)
      requires Valid()
      modifies `s, `schedule
      ensures Valid() && s == Play(old(s), me, seen) && s.bufs[me] == [] && value == Read(s.mem, a)
    {
      seen := AwaitDrained(a);
      ghost var fenced := s;
      ghost var more := Yield();
      PlayConcat(old(s), me, seen, more, a);
      OwnBufferStaysEmpty(fenced, me, more);
      seen := seen + more;
      value := Lookup(s.bufs[me], s.mem, a);
    }

    /** android_atomic_release_store: one plain store, which only enters the buffer. */
    method ReleaseStore(value: int32, a: Addr) returns (ghost seen: seq<Event>)
      requires Valid()
      modifies `s, `schedule
      ensures Valid()
      ensures var was := Play(old(s), me, seen);
              me < |was.bufs| && s.mem == was.mem && s.bufs == was.bufs[me := was.bufs[me] + [Write(a, value)]]
    {
      seen := Yield();
      s := Exec(s, me, Tso.ReleaseStore(value, a)[0]);
    }

    /** android_atomic_acquire_store: when it returns the buffer is empty, and the store is in memory
        unless another processor has overwritten it there. */
    method AcquireStore(value: int32, a: Addr) returns (ghost before: seq<Event>, ghost after: seq<Event>)
      requires Valid()
      modifies `s, `schedule
      ensures Valid() && s.bufs[me] == []
      ensures var was := Play(old(s), me, before);
              me < |was.bufs| &&
              var stored := was.(bufs := was.bufs[me := was.bufs[me] + [Write(a, value)]]);
              && s == Play(stored, me, after)
              && (CountHits(stored, me, after, a) == 0 ==> Read(s.mem, a) == value)
    {
      before := Yield();
      LookupAppend(s.bufs[me], s.mem, Write(a, value), a);
      s := Exec(s, me, Tso.AcquireStore(value, a)[0]);
      ghost var stored := s;
      after := AwaitDrained(a);
      s := Exec(s, me, Tso.AcquireStore(value, a)[1]);
      if CountHits(stored, me, after, a) == 0 { UnhitView(stored, me, after, a); }
    }

    /** lock; cmpxchgl, which android_atomic_cas and its acquire and release forms consist of. */
    method Cas(expected: int32, desired: int32, a: Addr) returns (status: int32, ghost seen: seq<Event>)
      requires Valid()
      modifies `s, `schedule
      ensures Valid() && AtMemory(AtomicSpec.Cas(expected, desired), a, old(s), seen, status)
      ensures status == 0 || s == Play(old(s), me, seen)
      ensures CountHits(old(s), me, seen, a) == 0 ==> (status == 0 <==> old(Lookup(s.bufs[me], s.mem, a)) == expected)
      ensures |schedule| <= |old(schedule)| && (CountHits(old(s), me, seen, a) > 0 ==> |schedule| < |old(schedule)|)
    {
      seen := AwaitDrained(a);
      if CountHits(old(s), me, seen, a) == 0 { UnhitMemory(old(s), me, seen, a); }
      var i := Tso.AcquireCas(expected, desired, a)[0];
      var prev := Result(s, me, i);
      s := Exec(s, me, i);
      status := if prev != expected then 1 else 0;
    }

    /** lock; xaddl: android_atomic_add, inc and dec. */
    method Add(increment: int32, a: Addr) returns (prev: int32, ghost seen: seq<Event>)
      requires Valid()
      modifies `s, `schedule
      ensures Valid() && AtMemory(AtomicSpec.Add(increment), a, old(s), seen, prev)
      ensures CountHits(old(s), me, seen, a) == 0 ==> prev == old(Lookup(s.bufs[me], s.mem, a))
    {
      seen := AwaitDrained(a);
      if CountHits(old(s), me, seen, a) == 0 { UnhitMemory(old(s), me, seen, a); }
      prev := Result(s, me, LockXadd(a, increment));
      s := Exec(s, me, LockXadd(a, increment));
    }

    /** The call is one atomic step on the word in memory: after the events `seen`, which include the
        draining of the caller's own buffer, the operation happened at once and returned r. */
    ghost predicate AtMemory(op: Op, a: Addr, start: Tso.State, seen: seq<Event>, r: int32)
      reads this
    {
      var was := Play(start, me, seen);
      && me < |was.bufs| && was.bufs[me] == []
      && r == Returned(op, Read(was.mem, a))
      && s.bufs == was.bufs
      && forall b :: Read(s.mem, b) == if b == a then NewValue(op, Read(was.mem, a)) else Read(was.mem, b)
    }

    /** One pass of android_atomic_and or or: read the word, maybe out of the own buffer, then cas. */
    method FetchPass(op: Op, a: Addr) returns (prev: int32, status: int32, ghost seen: seq<Event>)
      requires Valid() && (op.And? || op.Or?)
      modifies `s, `schedule
      ensures Valid() && |schedule| <= |old(schedule)|
      ensures if status == 0 then AtMemory(op, a, old(s), seen, prev) else s == Play(old(s), me, seen)
      ensures status != 0 ==> CountHits(old(s), me, seen, a) > 0 && |schedule| < |old(schedule)|
    {
      ghost var second;
      prev, seen := AcquireLoad(a);
      ghost var loaded := s;
      status, second := Cas(prev, NewValue(op, prev), a);
      PlayConcat(old(s), me, seen, second, a);
      if CountHits(loaded, me, second, a) == 0 { UnhitView(loaded, me, second, a); }
      seen := seen + second;
    }

    /** android_atomic_and and or. Each pass but the last is the fault of a write to the word by another
        processor. */
    method Fetch(op: Op, a: Addr) returns (prev: int32, ghost seen: seq<Event>, ghost passes: nat)
      requires Valid() && (op.And? || op.Or?)
      modifies `s, `schedule
      ensures Valid() && AtMemory(op, a, old(s), seen, prev)
      ensures 1 <= passes <= 1 + CountHits(old(s), me, seen, a)
      ensures CountHits(old(s), me, seen, a) == 0 ==> prev == old(Lookup(s.bufs[me], s.mem, a))
    {
      var status := 1;
      seen, passes, prev := [], 0, 0;
      while status != 0
        invariant Valid()
        invariant if status == 0 then AtMemory(op, a, old(s), seen, prev) else s == Play(old(s), me, seen)
        invariant passes <= (if status == 0 then 1 else 0) + CountHits(old(s), me, seen, a)
        invariant status == 0 ==> passes >= 1
        decreases |schedule|, status != 0
      {
        ghost var more;
        prev, status, more := FetchPass(op, a);
        PlayConcat(old(s), me, seen, more, a);
        seen, passes := seen + more, passes + 1;
      }
      if CountHits(old(s), me, seen, a) == 0 { UnhitMemory(old(s), me, seen, a); }
    }
  }
}
