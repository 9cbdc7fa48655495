/** x86-TSO: every processor has a FIFO store buffer in front of one shared memory.
    Loads forward from the processor's own buffer; `mfence` and every `lock` instruction
    wait until that buffer has drained. */
module Tso {
  import opened Int32

  type Addr = nat
  type Memory = map<Addr, int32>
  datatype Write = Write(addr: Addr, val: int32)
  type Buffer = seq<Write>
  datatype State = State(mem: Memory, bufs: seq<Buffer>)

  /** Words that were never written hold zero. */
  function Read(m: Memory, a: Addr): int32 {
    if a in m then m[a] else 0
  }

  /** What a processor with store buffer `buf` sees at `a`: its newest buffered store, else memory. */
  function Lookup(buf: Buffer, m: Memory, a: Addr): int32 {
    if buf == [] then Read(m, a)
    else if buf[|buf| - 1].addr == a then buf[|buf| - 1].val
    else Lookup(buf[..|buf| - 1], m, a)
  }

  datatype Instr =
    | Load(a: Addr)
    | Store(a: Addr, v: int32)
    | Mfence
    | LockCmpxchg(a: Addr, old_: int32, new_: int32)
    | LockXadd(a: Addr, inc: int32)

  predicate Enabled(s: State, t: nat, i: Instr) {
    && t < |s.bufs|
    && (!(i.Load? || i.Store?) ==> s.bufs[t] == [])
  }

  function Exec(s: State, t: nat, i: Instr): State
    requires Enabled(s, t, i)
  {
    match i
    case Load(_) => s
    case Store(a, v) => s.(bufs := s.bufs[t := s.bufs[t] + [Write(a, v)]])
    case Mfence => s
    case LockCmpxchg(a, o, n) => if Read(s.mem, a) == o then s.(mem := s.mem[a := n]) else s
    case LockXadd(a, inc) => s.(mem := s.mem[a := Wrap(Read(s.mem, a) + inc)])
  }

  /** The value an instruction leaves in its result register. */
  function Result(s: State, t: nat, i: Instr): int32
    requires Enabled(s, t, i)
  {
    match i
    case Load(a) => Lookup(s.bufs[t], s.mem, a)
    case LockCmpxchg(a, _, _) => Read(s.mem, a)
    case LockXadd(a, _) => Read(s.mem, a)
    case _ => 0
  }

  predicate CanFlush(s: State, t: nat) {
    t < |s.bufs| && s.bufs[t] != []
  }

  /** The oldest buffered store of `t` reaches memory. */
  function Flush(s: State, t: nat): State
    requires CanFlush(s, t)
  {
    var w := s.bufs[t][0];
    State(s.mem[w.addr := w.val], s.bufs[t := s.bufs[t][1..]])
  }

  // What the ordered header functions compile to; compiler barriers emit no instruction.

  function AcquireLoad(a: Addr): seq<Instr> { [Load(a)] }
  function AcquireStore(v: int32, a: Addr): seq<Instr> { [Store(a, v), Mfence] }
  function ReleaseStore(v: int32, a: Addr): seq<Instr> { [Store(a, v)] }
  function AcquireCas(o: int32, n: int32, a: Addr): seq<Instr> { [LockCmpxchg(a, o, n)] }

  /** An instruction that touches none of the addresses in `zone`. */
  predicate Avoids(i: Instr, zone: iset<Addr>) {
    i.Mfence? || i.a !in zone
  }

  /** No buffered store is to an address in `zone`. */
  ghost predicate Clear(buf: Buffer, zone: iset<Addr>) {
    forall k | 0 <= k < |buf| :: buf[k].addr !in zone
  }

  lemma {:induction false} LookupClear(buf: Buffer, m: Memory, a: Addr, zone: iset<Addr>)
    requires Clear(buf, zone) && a in zone
    ensures Lookup(buf, m, a) == Read(m, a)
  {
    if buf == [] {
    } else {
      LookupClear(buf[..|buf| - 1], m, a, zone);
    }
  }

  /** A processor's own view does not change when its oldest store reaches memory. */
  lemma {:induction false} LookupFlush(buf: Buffer, m: Memory, a: Addr)
    requires buf != []
    ensures Lookup(buf[1..], m[buf[0].addr := buf[0].val], a) == Lookup(buf, m, a)
  {
    if |buf| <= 1 {
    } else {
      var front := buf[..|buf| - 1];
      LookupFlush(front, m, a);
      assert buf[1..][..|buf| - 2] == front[1..];
    }
  }

  /** Another processor's store to a different address does not change the view of `a`. */
  lemma {:induction false} LookupFrame(buf: Buffer, m: Memory, a: Addr, b: Addr, v: int32)
    requires a != b
    ensures Lookup(buf, m[b := v], a) == Lookup(buf, m, a)
  {
    if buf == [] {
    } else {
      LookupFrame(buf[..|buf| - 1], m, a, b, v);
    }
  }

  lemma LookupAppend(buf: Buffer, m: Memory, w: Write, a: Addr)
    ensures Lookup(buf + [w], m, a) == if w.addr == a then w.val else Lookup(buf, m, a)
  {
    assert (buf + [w])[..|buf|] == buf;
  }

  /** All buffered stores of `t` reach memory. */
  function FlushAll(s: State, t: nat): (r: State)
    requires t < |s.bufs|
    ensures |r.bufs| == |s.bufs|
    decreases |s.bufs[t]|
  {
    if s.bufs[t] == [] then s else FlushAll(Flush(s, t), t)
  }

  /** Then memory shows what `t` saw. */
  lemma {:induction false} FlushedAll(s: State, t: nat, a: Addr)
    requires t < |s.bufs|
    ensures FlushAll(s, t).bufs == s.bufs[t := []]
    ensures Read(FlushAll(s, t).mem, a) == Lookup(s.bufs[t], s.mem, a)
    decreases |s.bufs[t]|
  {
    if s.bufs[t] == [] {
    } else {
      LookupFlush(s.bufs[t], s.mem, a);
      FlushedAll(Flush(s, t), t, a);
      assert s.bufs[t := s.bufs[t][1..]][t := []] == s.bufs[t := []];
    }
  }

  /** The newest store to an address decides what the processor sees there. */
  lemma {:induction false} LookupNewest(buf: Buffer, m: Memory, k: nat)
    requires k < |buf| && Clear(buf[k + 1..], iset{buf[k].addr})
    ensures Lookup(buf, m, buf[k].addr) == buf[k].val
    decreases |buf|
  {
    if k == |buf| - 1 {
    } else {
      var front, rest := buf[..|buf| - 1], buf[k + 1..];
      assert rest[|buf| - k - 2] == buf[|buf| - 1];
      assert front[k + 1..] == rest[..|buf| - k - 2];
      LookupNewest(front, m, k);
    }
  }
}
