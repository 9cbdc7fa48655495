/** One-way publication on x86-TSO. Processor 0 fills slot i of a log with plain stores and then
    publishes the count i + 1 with android_atomic_release_store; any processor that reads a count with
    android_atomic_acquire_load may read the slots below it with plain loads. No fence anywhere. */
module PublishLog {
  import opened Int32
  import opened Tso

  datatype Config = Config(count: Addr, slot: nat -> Addr) {
    ghost predicate Valid() {
      && (forall i :: slot(i) != count)
      && (forall i, j | i != j :: slot(i) != slot(j))
    }
    ghost predicate Uses(a: Addr) { a == count || exists i :: slot(i) == a }
    ghost function Zone(): iset<Addr> { iset a | Uses(a) }
  }

  /** `next`: the slot being filled; `known[t]`: the count processor t last loaded. */
  datatype System = System(hw: Tso.State, next: nat, known: seq<int32>)

  datatype Action =
    | Fill(v: int32)
    | Publish
    | Look(t: nat)
    | Fetch(t: nat, j: nat)
    | Unrelated(t: nat, i: Instr)
    | Drain(t: nat)

  const WRITER: nat := 0

  function Processor(act: Action): nat {
    match act
    case Fill(_) => WRITER
    case Publish => WRITER
    case _ => act.t
  }

  ghost function Code(c: Config, s: System, act: Action): Instr
    requires !act.Drain?
    requires act.Publish? ==> s.next < MAX
  {
    match act
    case Fill(v) => Store(c.slot(s.next), v)
    case Publish => ReleaseStore(s.next + 1, c.count)[0]
    case Look(_) => AcquireLoad(c.count)[0]
    case Fetch(_, j) => Load(c.slot(j))
    case Unrelated(_, i) => i
  }

  ghost predicate Enabled(c: Config, s: System, act: Action) {
    && var t := Processor(act);
    && t < |s.known| == |s.hw.bufs|
    && (act.Publish? ==> s.next < MAX)
    && (act.Fetch? ==> act.j < s.known[t])
    && (act.Unrelated? ==> Avoids(act.i, c.Zone()))
    && (if act.Drain? then CanFlush(s.hw, t) else Tso.Enabled(s.hw, t, Code(c, s, act)))
  }

  ghost function Step(c: Config, s: System, act: Action): System
    requires Enabled(c, s, act)
  {
    if act.Drain? then s.(hw := Flush(s.hw, act.t))
    else
      var i := Code(c, s, act);
      var hw := Exec(s.hw, Processor(act), i);
      match act
      case Publish => s.(hw := hw, next := s.next + 1)
      case Look(t) => s.(hw := hw, known := s.known[t := Result(s.hw, t, i)])
      case _ => s.(hw := hw)
  }

  datatype Event =
    | Filled(j: nat, v: int32)
    | Fetched(t: nat, j: nat, v: int32)

  ghost function Observe(c: Config, s: System, act: Action): seq<Event>
    requires Enabled(c, s, act)
  {
    match act
    case Fill(v) => [Filled(s.next, v)]
    case Fetch(t, j) => [Fetched(t, j, Result(s.hw, t, Code(c, s, act)))]
    case _ => []
  }

  ghost predicate Runs(c: Config, s: System, acts: seq<Action>)
    decreases |acts|
  {
    acts == [] || (Enabled(c, s, acts[0]) && Runs(c, Step(c, s, acts[0]), acts[1..]))
  }

  ghost function After(c: Config, s: System, acts: seq<Action>): System
    requires Runs(c, s, acts)
    decreases |acts|
  {
    if acts == [] then s else After(c, Step(c, s, acts[0]), acts[1..])
  }

  ghost function Trace(c: Config, s: System, acts: seq<Action>): seq<Event>
    requires Runs(c, s, acts)
    decreases |acts|
  {
    if acts == [] then []
    else Observe(c, s, acts[0]) + Trace(c, Step(c, s, acts[0]), acts[1..])
  }

  /** Nothing is published, nothing known, and every store buffer is empty. */
  ghost predicate Initial(c: Config, s: System) {
    && |s.known| == |s.hw.bufs| > WRITER
    && s.next == 0 && Read(s.hw.mem, c.count) == 0
    && forall t | 0 <= t < |s.known| :: s.known[t] == 0 && s.hw.bufs[t] == []
  }

  /** The last value the writer ever puts in slot j during `tr`. */
  function LastFill(tr: seq<Event>, j: nat, init: int32): int32
    decreases |tr|
  {
    if tr == [] then init
    else LastFill(tr[1..], j, if tr[0].Filled? && tr[0].j == j then tr[0].v else init)
  }

  lemma LastFillLater(e: seq<Event>, rest: seq<Event>, j: nat, init: int32)
    requires |e| <= 1
    ensures LastFill(e + rest, j, init) ==
            LastFill(rest, j, if e != [] && e[0].Filled? && e[0].j == j then e[0].v else init)
  {
    if e == [] { assert e + rest == rest; } else { assert (e + rest)[1..] == rest; }
  }

  // ---- Why it works ----

  /** What memory will hold at `a` once the writer's first m buffered stores have drained. */
  ghost function View(s: System, m: nat, a: Addr): int32
    requires WRITER < |s.hw.bufs| && m <= |s.hw.bufs[WRITER]|
  {
    Lookup(s.hw.bufs[WRITER][..m], s.hw.mem, a)
  }

  /** What memory will hold at `a` once all of them have: the writer's own view. */
  ghost function Own(s: System, a: Addr): int32
    requires WRITER < |s.hw.bufs|
  {
    View(s, |s.hw.bufs[WRITER]|, a)
  }

  /** A moment of the drain at which every published slot already shows what the writer sees. */
  ghost predicate GoodAt(c: Config, s: System, m: nat)
    requires WRITER < |s.hw.bufs| && m <= |s.hw.bufs[WRITER]|
  {
    && Read(s.hw.mem, c.count) <= View(s, m, c.count) <= s.next
    && forall j: nat | j < View(s, m, c.count) :: View(s, m, c.slot(j)) == Own(s, c.slot(j))
  }

  ghost predicate Inv(c: Config, s: System) {
    && c.Valid()
    && |s.known| == |s.hw.bufs| > WRITER
    && 0 <= Read(s.hw.mem, c.count)
    && Own(s, c.count) == s.next
    && (forall t | 0 <= t < |s.known| ::
          && (t != WRITER ==> Clear(s.hw.bufs[t], c.Zone()))
          && s.known[t] <= if t == WRITER then Own(s, c.count) else Read(s.hw.mem, c.count))
    && (forall m: nat, k: nat | m <= k <= |s.hw.bufs[WRITER]| :: View(s, m, c.count) <= View(s, k, c.count))
    && (forall m: nat | m <= |s.hw.bufs[WRITER]| :: GoodAt(c, s, m))
  }

  /** A drain by the writer moves every view one store along; other drains do not touch the log. */
  lemma ViewsAfterDrain(c: Config, s: System, t: nat, m: nat, a: Addr)
    requires Inv(c, s) && Enabled(c, s, Drain(t)) && c.Uses(a)
    requires var s' := Step(c, s, Drain(t)); m <= |s'.hw.bufs[WRITER]|
    ensures View(Step(c, s, Drain(t)), m, a) == View(s, if t == WRITER then m + 1 else m, a)
  {
    var s' := Step(c, s, Drain(t));
    var w, buf := s.hw.bufs[t][0], s.hw.bufs[WRITER];
    if t == WRITER {
      LookupFlush(buf[..m + 1], s.hw.mem, a);
      assert buf[..m + 1][1..] == s'.hw.bufs[WRITER][..m];
    } else {
      LookupFrame(buf[..m], s.hw.mem, a, w.addr, w.val);
    }
  }

  lemma DrainKeepsInv(c: Config, s: System, t: nat)
    requires Inv(c, s) && Enabled(c, s, Drain(t))
    ensures Inv(c, Step(c, s, Drain(t)))
    ensures forall j: nat :: Own(Step(c, s, Drain(t)), c.slot(j)) == Own(s, c.slot(j))
  {
    var s' := Step(c, s, Drain(t));
    forall m: nat, a: Addr | m <= |s'.hw.bufs[WRITER]| && c.Uses(a)
      ensures View(s', m, a) == View(s, if t == WRITER then m + 1 else m, a)
    {
      ViewsAfterDrain(c, s, t, m, a);
    }
    assert View(s', 0, c.count) == Read(s'.hw.mem, c.count) >= View(s, 0, c.count) == Read(s.hw.mem, c.count);
    assert Own(s', c.count) == Own(s, c.count);
    forall j: nat ensures Own(s', c.slot(j)) == Own(s, c.slot(j)) {
      assert c.Uses(c.slot(j));
    }
    forall m: nat | m <= |s'.hw.bufs[WRITER]| ensures GoodAt(c, s', m) {
      assert GoodAt(c, s, if t == WRITER then m + 1 else m);
      forall j: nat | j < View(s', m, c.count) ensures View(s', m, c.slot(j)) == Own(s', c.slot(j)) {
        assert c.Uses(c.slot(j));
      }
    }
  }

  /** A store by the writer adds one view at the end and keeps the earlier ones. */
  lemma ViewsAfterStore(s: System, s': System, w: Write, m: nat, a: Addr)
    requires WRITER < |s.hw.bufs| == |s'.hw.bufs| && s'.hw.mem == s.hw.mem
    requires s'.hw.bufs[WRITER] == s.hw.bufs[WRITER] + [w]
    requires m <= |s'.hw.bufs[WRITER]|
    ensures View(s', m, a) == if m <= |s.hw.bufs[WRITER]| then View(s, m, a)
                              else if w.addr == a then w.val else Own(s, a)
  {
    var buf := s.hw.bufs[WRITER];
    if m <= |buf| {
      assert (buf + [w])[..m] == buf[..m];
    } else {
      assert (buf + [w])[..m] == buf + [w] && buf[..|buf|] == buf;
      LookupAppend(buf, s.hw.mem, w, a);
    }
  }

  lemma FillKeepsInv(c: Config, s: System, v: int32)
    requires Inv(c, s) && Enabled(c, s, Fill(v))
    ensures Inv(c, Step(c, s, Fill(v)))
    ensures forall j: nat :: Own(Step(c, s, Fill(v)), c.slot(j)) == if j == s.next then v else Own(s, c.slot(j))
  {
    var s' := Step(c, s, Fill(v));
    var w, n := Write(c.slot(s.next), v), |s.hw.bufs[WRITER]|;
    forall m: nat, a: Addr | m <= n + 1
      ensures View(s', m, a) == if m <= n then View(s, m, a) else if w.addr == a then v else Own(s, a)
    {
      ViewsAfterStore(s, s', w, m, a);
    }
    forall m: nat | m <= n + 1 ensures GoodAt(c, s', m) {
      assert GoodAt(c, s, if m <= n then m else n);
    }
  }

  lemma PublishKeepsInv(c: Config, s: System)
    requires Inv(c, s) && Enabled(c, s, Publish)
    ensures Inv(c, Step(c, s, Publish))
    ensures forall j: nat :: Own(Step(c, s, Publish), c.slot(j)) == Own(s, c.slot(j))
  {
    var s' := Step(c, s, Publish);
    var w, n := Write(c.count, s.next + 1), |s.hw.bufs[WRITER]|;
    forall m: nat, a: Addr | m <= n + 1
      ensures View(s', m, a) == if m <= n then View(s, m, a) else if w.addr == a then w.val else Own(s, a)
    {
      ViewsAfterStore(s, s', w, m, a);
    }
    forall m: nat | m <= n + 1 ensures GoodAt(c, s', m) && View(s', m, c.count) <= s.next + 1 {
      assert GoodAt(c, s, if m <= n then m else n);
    }
    forall m: nat | m <= n ensures View(s', m, c.count) <= s.next {
      assert GoodAt(c, s, m);
    }
  }

  lemma UnrelatedKeepsInv(c: Config, s: System, t: nat, i: Instr)
    requires Inv(c, s) && Enabled(c, s, Unrelated(t, i))
    ensures Inv(c, Step(c, s, Unrelated(t, i)))
    ensures forall j: nat :: Own(Step(c, s, Unrelated(t, i)), c.slot(j)) == Own(s, c.slot(j))
  {
    var s' := Step(c, s, Unrelated(t, i));
    var n, n' := |s.hw.bufs[WRITER]|, |s'.hw.bufs[WRITER]|;
    forall m: nat, a: Addr | m <= n' && c.Uses(a)
      ensures View(s', m, a) == View(s, if m <= n then m else n, a)
    {
      match i
      case Store(b, v) => if t == WRITER { ViewsAfterStore(s, s', Write(b, v), m, a); }
      case LockCmpxchg(b, _, v) => LookupFrame(s.hw.bufs[WRITER][..m], s.hw.mem, a, b, v);
      case LockXadd(b, inc) => LookupFrame(s.hw.bufs[WRITER][..m], s.hw.mem, a, b, Wrap(Read(s.hw.mem, b) + inc));
      case _ =>
    }
    assert View(s', 0, c.count) == Read(s'.hw.mem, c.count);
    forall j: nat ensures Own(s', c.slot(j)) == Own(s, c.slot(j)) {
      assert c.Uses(c.slot(j));
    }
    forall m: nat | m <= n' ensures GoodAt(c, s', m) {
      assert GoodAt(c, s, if m <= n then m else n);
      forall j: nat | j < View(s', m, c.count) ensures View(s', m, c.slot(j)) == Own(s', c.slot(j)) {
        assert c.Uses(c.slot(j));
      }
    }
  }

  /** A processor's load of a word of the log: the writer sees its own view, the others see memory. */
  lemma LoadSees(c: Config, s: System, t: nat, a: Addr)
    requires Inv(c, s) && t < |s.known| && c.Uses(a)
    ensures Lookup(s.hw.bufs[t], s.hw.mem, a) == if t == WRITER then Own(s, a) else View(s, 0, a)
  {
    if t == WRITER {
      assert s.hw.bufs[t][..|s.hw.bufs[t]|] == s.hw.bufs[t];
    } else {
      LookupClear(s.hw.bufs[t], s.hw.mem, a, c.Zone());
    }
  }

  lemma LookKeepsInv(c: Config, s: System, t: nat)
    requires Inv(c, s) && Enabled(c, s, Look(t))
    ensures Inv(c, Step(c, s, Look(t)))
  {
    var s' := Step(c, s, Look(t));
    LoadSees(c, s, t, c.count);
    assert forall m: nat, a: Addr | m <= |s.hw.bufs[WRITER]| :: View(s', m, a) == View(s, m, a);
    assert forall m: nat | m <= |s.hw.bufs[WRITER]| :: GoodAt(c, s, m) ==> GoodAt(c, s', m);
  }

  /** Every step keeps the invariant; only Fill changes the writer's view, and only of its own slot. */
  lemma StepKeepsInv(c: Config, s: System, act: Action)
    requires Inv(c, s) && Enabled(c, s, act)
    ensures Inv(c, Step(c, s, act))
    ensures forall j: nat :: Own(Step(c, s, act), c.slot(j)) ==
                             if act.Fill? && j == s.next then act.v else Own(s, c.slot(j))
    ensures act.Fetch? ==> Observe(c, s, act) == [Fetched(act.t, act.j, Own(s, c.slot(act.j)))] && act.j < s.next
  {
    match act
    case Fill(v) => FillKeepsInv(c, s, v);
    case Publish => PublishKeepsInv(c, s);
    case Look(t) => LookKeepsInv(c, s, t);
    case Fetch(t, j) =>
      assert c.Uses(c.slot(j));
      LoadSees(c, s, t, c.slot(j));
      assert GoodAt(c, s, if t == WRITER then |s.hw.bufs[WRITER]| else 0);
    case Unrelated(t, i) => UnrelatedKeepsInv(c, s, t, i);
    case Drain(t) => DrainKeepsInv(c, s, t);
  }

  /** A slot below the one being filled is never filled again, so its value is already the last one. */
  lemma {:induction false} OwnIsLastFill(c: Config, s: System, acts: seq<Action>, j: nat)
    requires Inv(c, s) && Runs(c, s, acts) && j < s.next
    ensures LastFill(Trace(c, s, acts), j, Own(s, c.slot(j))) == Own(s, c.slot(j))
    decreases |acts|
  {
    if acts == [] {
    } else {
      StepKeepsInv(c, s, acts[0]);
      var rest := Trace(c, Step(c, s, acts[0]), acts[1..]);
      OwnIsLastFill(c, Step(c, s, acts[0]), acts[1..], j);
      LastFillLater(Observe(c, s, acts[0]), rest, j, Own(s, c.slot(j)));
    }
  }

  lemma {:induction false} FetchedFrom(c: Config, s: System, acts: seq<Action>, k: nat)
    requires Inv(c, s) && Runs(c, s, acts)
    requires k < |Trace(c, s, acts)| && Trace(c, s, acts)[k].Fetched?
    ensures var tr := Trace(c, s, acts);
            tr[k].v == LastFill(tr, tr[k].j, Own(s, c.slot(tr[k].j)))
    decreases |acts|
  {
    var s', e := Step(c, s, acts[0]), Observe(c, s, acts[0]);
    var tr, rest := Trace(c, s, acts), Trace(c, s', acts[1..]);
    StepKeepsInv(c, s, acts[0]);
    if k < |e| {
      OwnIsLastFill(c, s, acts, tr[k].j);
    } else {
      FetchedFrom(c, s', acts[1..], k - |e|);
      LastFillLater(e, rest, tr[k].j, Own(s, c.slot(tr[k].j)));
    }
  }

  /** In every run of any number of processors, whoever was told a count of at least j + 1 and then
      reads slot j gets the last value the writer ever puts there, even in the rest of the run. */
  lemma ReadersSeeFinalContents(c: Config, s: System, acts: seq<Action>, k: nat)
    requires c.Valid() && Initial(c, s) && Runs(c, s, acts)
    requires k < |Trace(c, s, acts)| && Trace(c, s, acts)[k].Fetched?
    ensures var tr := Trace(c, s, acts);
            tr[k].v == LastFill(tr, tr[k].j, Read(s.hw.mem, c.slot(tr[k].j)))
  {
    FetchedFrom(c, s, acts, k);
  }

  /** Publication arrives: once the writer's stores have drained, whoever looks is told the full count. */
  lemma DrainedCountIsComplete(c: Config, s: System, acts: seq<Action>, t: nat)
    requires c.Valid() && Initial(c, s) && Runs(c, s, acts)
    requires Enabled(c, After(c, s, acts), Look(t)) && After(c, s, acts).hw.bufs[WRITER] == []
    ensures Step(c, After(c, s, acts), Look(t)).known[t] == After(c, s, acts).next
  {
    RunKeepsInv(c, s, acts);
    LoadSees(c, After(c, s, acts), t, c.count);
  }

  lemma {:induction false} RunKeepsInv(c: Config, s: System, acts: seq<Action>)
    requires Inv(c, s) && Runs(c, s, acts)
    ensures Inv(c, After(c, s, acts))
    decreases |acts|
  {
    if acts == [] {
    } else {
      StepKeepsInv(c, s, acts[0]);
      RunKeepsInv(c, Step(c, s, acts[0]), acts[1..]);
    }
  }

  // ---- What is published can be read ----

  ghost predicate Reaches(c: Config, s: System, s': System) {
    exists acts :: Runs(c, s, acts) && After(c, s, acts) == s'
  }

  lemma ReachesItself(c: Config, s: System)
    ensures Reaches(c, s, s)
  {
    assert Runs(c, s, []);
  }

  lemma ReachesVia(c: Config, s: System, act: Action, goal: System)
    requires Enabled(c, s, act) && Reaches(c, Step(c, s, act), goal)
    ensures Reaches(c, s, goal)
  {
    var rest :| Runs(c, Step(c, s, act), rest) && After(c, Step(c, s, act), rest) == goal;
    var acts := [act] + rest;
    assert acts[1..] == rest;
    assert Runs(c, s, acts);
  }

  /** The writer's buffer drains: the log as the writer sees it stays the same. */
  lemma {:induction false} WriterDrains(c: Config, s: System) returns (s': System)
    requires Inv(c, s)
    ensures Inv(c, s') && s'.hw.bufs[WRITER] == [] && |s'.known| == |s.known| && s'.next == s.next
    ensures forall j: nat :: Own(s', c.slot(j)) == Own(s, c.slot(j))
    ensures forall goal :: Reaches(c, s', goal) ==> Reaches(c, s, goal)
    decreases |s.hw.bufs[WRITER]|
  {
    if s.hw.bufs[WRITER] == [] {
      s' := s;
    } else {
      var s1 := Step(c, s, Drain(WRITER));
      StepKeepsInv(c, s, Drain(WRITER));
      s' := WriterDrains(c, s1);
      forall goal | Reaches(c, s', goal) ensures Reaches(c, s, goal) {
        ReachesVia(c, s, Drain(WRITER), goal);
      }
    }
  }

  lemma LookThenFetch(c: Config, s: System, t: nat, j: nat) returns (goal: System)
    requires Inv(c, s) && s.hw.bufs[WRITER] == [] && t < |s.known| && j < s.next
    ensures Reaches(c, s, goal) && Enabled(c, goal, Fetch(t, j))
    ensures Observe(c, goal, Fetch(t, j)) == [Fetched(t, j, Own(s, c.slot(j)))]
  {
    LoadSees(c, s, t, c.count);
    StepKeepsInv(c, s, Look(t));
    goal := Step(c, s, Look(t));
    StepKeepsInv(c, goal, Fetch(t, j));
    ReachesItself(c, goal);
    ReachesVia(c, s, Look(t), goal);
  }

  /** From every reachable state with room for one more entry: once the writer has filled and published the
      next slot and its buffer has drained, any processor is told a count that covers the slot, and reads
      from it what was put there. */
  lemma PublishedCanBeRead(c: Config, s: System, acts: seq<Action>, v: int32, t: nat) returns (goal: System)
    requires c.Valid() && Initial(c, s) && Runs(c, s, acts)
    requires After(c, s, acts).next < MAX && t < |After(c, s, acts).known|
    ensures var s0 := After(c, s, acts);
            && Reaches(c, s0, goal)
            && Enabled(c, goal, Fetch(t, s0.next))
            && Observe(c, goal, Fetch(t, s0.next)) == [Fetched(t, s0.next, v)]
  {
    RunKeepsInv(c, s, acts);
    var s0 := After(c, s, acts);
    var j := s0.next;
    StepKeepsInv(c, s0, Fill(v));
    var s1 := Step(c, s0, Fill(v));
    StepKeepsInv(c, s1, Publish);
    var s2 := Step(c, s1, Publish);
    var s3 := WriterDrains(c, s2);
    goal := LookThenFetch(c, s3, t, j);
    ReachesVia(c, s1, Publish, goal);
    ReachesVia(c, s0, Fill(v), goal);
  }
}
