/** The operations of the atomic headers, instruction by instruction: arm and mips use
    load-linked/store-conditional loops with opposite status conventions, arm64 read-then-CAS loops, x86
    locked instructions and CAS loops. What one instruction does to the registers of its thread, and why
    each operation is one atomic step; `AtomicMachine` and `TsoAtomics` run any number of threads. */
module AtomicCode {
  import opened Int32
  import opened Words
  import opened AtomicSpec

  /** `Mips` stands for the mips and mips64 headers, `X86` for x86 and x86_64: same operations. */
  datatype Arch = Arm | Mips | Arm64 | X86

  datatype Instr =
    | LoadLinked              // ldrex / ll into prev
    | SetStatus(v: int32)     // mov / li
    | ComputeTmp              // tmp := prev + inc, prev & mask, prev | mask
    | ComputeStatus           // the same into status
    | MoveNew                 // status := new value of the cas
    | StoreCondTmp            // strex status, tmp: 0 on success, 1 on failure
    | StoreCondNewIfEq        // strexeq: as above with the new value, skipped unless prev == old
    | StoreCondStatus         // sc status: stores status, then 1 on success, 0 on failure
    | BranchUnlessOld(target: nat)
    | Load                    // prev := *ptr
    | CasPrev                 // status := android_atomic_cas(prev, f(prev), ptr)
    | LockedCmpxchg           // prev := the word; the new value goes in when prev == old
    | LockedXadd
    | Store
    | RetryIfNonzero          // } while (status != 0)
    | RetryIfZero             // } while (status == 0)

  /** On x86 android_atomic_*_store and *_load are ordinary stores and loads, which the store buffers
      set apart from the rest. */
  predicate HasCode(arch: Arch, op: Op) {
    arch == X86 ==> !op.Put? && !op.Get?
  }

  function Code(arch: Arch, op: Op): seq<Instr>
    requires HasCode(arch, op)
  {
    match (arch, op)
    case (_, Put(_)) => [Store]
    case (_, Get) => [Load]
    case (Arm, Cas(_, _)) => [LoadLinked, SetStatus(0), StoreCondNewIfEq, RetryIfNonzero]
    case (Arm, _) => [LoadLinked, ComputeTmp, StoreCondTmp, RetryIfNonzero]
    case (Mips, Cas(_, _)) =>
      [LoadLinked, SetStatus(1), BranchUnlessOld(5), MoveNew, StoreCondStatus, RetryIfZero]
    case (Mips, _) => [LoadLinked, ComputeStatus, StoreCondStatus, RetryIfZero]
    case (_, Cas(_, _)) => [LockedCmpxchg]
    case (X86, Add(_)) => [LockedXadd]
    case (_, _) => [Load, CasPrev, RetryIfNonzero]
  }

  predicate IsStoreConditional(i: Instr) {
    i.StoreCondTmp? || i.StoreCondNewIfEq? || i.StoreCondStatus?
  }

  datatype Regs = Regs(prev: int32, tmp: int32, status: int32)

  datatype Thread =
    | Resting
    | Busy(op: Op, pc: nat, r: Regs, linked: bool)

  /** What an instruction does: the next pc and registers, and the value it stores in the word, if any. */
  datatype Effect = Effect(pc: nat, r: Regs, stores: bool, val: int32)

  function Exec(i: Instr, op: Op, pc: nat, r: Regs, word: int32, scOk: bool): Effect {
    match i
    case LoadLinked => Effect(pc + 1, r.(prev := word), false, 0)
    case SetStatus(v) => Effect(pc + 1, r.(status := v), false, 0)
    case ComputeTmp => Effect(pc + 1, r.(tmp := NewValue(op, r.prev)), false, 0)
    case ComputeStatus => Effect(pc + 1, r.(status := NewValue(op, r.prev)), false, 0)
    case MoveNew => Effect(pc + 1, r.(status := if op.Cas? then op.new_ else 0), false, 0)
    case StoreCondTmp => Effect(pc + 1, r.(status := if scOk then 0 else 1), scOk, r.tmp)
    case StoreCondNewIfEq =>
      if op.Cas? && r.prev == op.old_
      then Effect(pc + 1, r.(status := if scOk then 0 else 1), scOk, op.new_)
      else Effect(pc + 1, r, false, 0)
    case StoreCondStatus => Effect(pc + 1, r.(status := if scOk then 1 else 0), scOk, r.status)
    case BranchUnlessOld(target) => Effect(if op.Cas? && r.prev != op.old_ then target else pc + 1, r, false, 0)
    case Load => Effect(pc + 1, r.(prev := word), false, 0)
    case CasPrev =>
      if word == r.prev
      then Effect(pc + 1, r.(status := 0), true, NewValue(op, r.prev))
      else Effect(pc + 1, r.(status := 1), false, 0)
    case LockedCmpxchg =>
      if op.Cas? && word == op.old_
      then Effect(pc + 1, r.(prev := word), true, op.new_)
      else Effect(pc + 1, r.(prev := word), false, 0)
    case LockedXadd => Effect(pc + 1, r.(prev := word), true, if op.Add? then Wrap(word + op.inc) else word)
    case Store => Effect(pc + 1, r, true, if op.Put? then op.val else word)
    case RetryIfNonzero => Effect(if r.status != 0 then 0 else pc + 1, r, false, 0)
    case RetryIfZero => Effect(if r.status == 0 then 0 else pc + 1, r, false, 0)
  }

  /** The value of the C return statement that follows the loop. */
  function ReturnValue(op: Op, r: Regs): int32 {
    match op
    case Cas(o, _) => if r.prev != o then 1 else 0
    case Put(_) => 0
    case _ => r.prev
  }

  /** A failing cas, and a load, take their step at the instruction that reads the deciding value; every
      other call at the instruction that stores. */
  predicate Takes(i: Instr, op: Op, word: int32, stores: bool) {
    || stores
    || (op.Cas? && (i.LoadLinked? || i.LockedCmpxchg?) && word != op.old_)
    || op.Get?
  }

  // ---- Why each loop is one atomic step ----

  /** The call's atomic step lies behind it. */
  predicate Done(arch: Arch, op: Op, pc: nat, r: Regs)
    requires HasCode(arch, op)
  {
    var n := |Code(arch, op)|;
    || pc >= n
    || (op.Cas? && n > 1 && pc >= 1 && r.prev != op.old_)
    || (n > 1 && pc == n - 1 && (if arch == Mips then r.status != 0 else r.status == 0))
  }

  /** What the registers hold at each pc. */
  predicate Consistent(arch: Arch, op: Op, pc: nat, r: Regs, linked: bool, word: int32)
    requires HasCode(arch, op)
  {
    && pc <= |Code(arch, op)|
    && (!Done(arch, op, pc, r) && linked && pc >= 1 && (arch == Arm || arch == Mips) ==> r.prev == word)
    && match arch
       case Arm =>
         if op.Cas? then (pc == 2 || (pc == 3 && r.prev != op.old_) ==> r.status == 0)
         else pc == 2 ==> r.tmp == NewValue(op, r.prev)
       case Mips =>
         if op.Cas? then
           && (pc == 3 || pc == 4 ==> r.prev == op.old_)
           && (pc == 4 ==> r.status == op.new_)
           && (pc == 2 || (pc == 5 && r.prev != op.old_) ==> r.status == 1)
         else pc == 2 ==> r.status == NewValue(op, r.prev)
       case _ => true
  }

  /** One instruction of one thread: the registers stay consistent, and it is the call's atomic step
      exactly when the machine says so. */
  lemma InstructionIsRight(arch: Arch, th: Thread, word: int32, scOk: bool)
    requires th.Busy? && HasCode(arch, th.op) && th.pc < |Code(arch, th.op)|
    requires Consistent(arch, th.op, th.pc, th.r, th.linked, word)
    requires scOk ==> th.linked
    ensures var i := Code(arch, th.op)[th.pc];
            var e := Exec(i, th.op, th.pc, th.r, word, scOk);
            var takes := Takes(i, th.op, word, e.stores);
            var word' := if e.stores then e.val else word;
            && (takes ==> !Done(arch, th.op, th.pc, th.r) && word' == NewValue(th.op, word))
            && (takes ==> th.op.Put? || e.r.prev == word)
            && (!takes ==> word' == word)
            && (Done(arch, th.op, e.pc, e.r) <==> takes || Done(arch, th.op, th.pc, th.r))
            && (Done(arch, th.op, th.pc, th.r) ==> e.r.prev == th.r.prev)
            && Consistent(arch, th.op, e.pc, e.r, i.LoadLinked? || (!e.stores && th.linked), word')
  {
    match th.op
    case Cas(_, _) =>
    case Add(_) =>
    case And(_) =>
    case Or(_) =>
    case Put(_) =>
    case Get =>
  }

  function Unlink(th: Thread): Thread {
    if th.Busy? then th.(linked := false) else th
  }

  /** A thread in the middle of a call, or at rest, and how the one-step-per-call machine sees it. */
  ghost predicate ThreadMatches(arch: Arch, th: Thread, v: View, a: Ideal, word: int32) {
    match th
    case Resting => v == Idle
    case Busy(op, pc, r, linked) =>
      && HasCode(arch, op)
      && Consistent(arch, op, pc, r, linked, word)
      && if Done(arch, op, pc, r)
         then && v.Taken? && v.op == op && v.k < |a.steps|
              && (op.Put? || r.prev == Final(a.init, a.steps[..v.k]))
         else v == Pending(op)
  }

  /** Threads that do not run are undisturbed: a store by another thread only breaks their link. */
  lemma OthersMatch(arch: Arch, th: Thread, v: View, a: Ideal, a': Ideal,
                    word: int32, word': int32, stored: bool)
    requires ThreadMatches(arch, th, v, a, word)
    requires stored || word' == word
    requires a'.init == a.init && |a.steps| <= |a'.steps| && a'.steps[..|a.steps|] == a.steps
    ensures ThreadMatches(arch, if stored then Unlink(th) else th, v, a', word')
  {
    if th.Busy? && v.Taken? && v.k < |a.steps| {
      assert a'.steps[..v.k] == a.steps[..v.k];
    }
  }

  // ---- Why a thread that runs alone finishes ----

  /** If nobody interferes, the pass that the thread is in is its last. */
  predicate LastPass(arch: Arch, op: Op, pc: nat, r: Regs, linked: bool, word: int32)
    requires HasCode(arch, op)
  {
    var n := |Code(arch, op)|;
    || n == 1 || pc == 0 || pc >= n
    || match arch
       case Arm => if pc == n - 1 then r.status == 0 else linked || (op.Cas? && r.prev != op.old_)
       case Mips => if pc == n - 1 then r.status != 0 else linked || (op.Cas? && r.prev != op.old_ && pc <= 2)
       case _ => if pc == n - 1 then r.status == 0 else r.prev == word
  }

  /** A bound on the instructions it still needs. */
  function Remaining(arch: Arch, th: Thread, word: int32): (k: nat)
    requires th.Busy? && HasCode(arch, th.op) && th.pc <= |Code(arch, th.op)|
    ensures k <= 2 * |Code(arch, th.op)|
  {
    var n := |Code(arch, th.op)|;
    n - th.pc + if LastPass(arch, th.op, th.pc, th.r, th.linked, word) then 0 else n
  }

  /** One instruction of a thread that runs alone, a store-conditional failing only on a broken link:
      fewer remain. The loop tests do not read the word. */
  lemma FewerRemain(arch: Arch, th: Thread, word: int32, seen: int32)
    requires th.Busy? && HasCode(arch, th.op) && th.pc < |Code(arch, th.op)|
    requires Consistent(arch, th.op, th.pc, th.r, th.linked, word)
    requires var i := Code(arch, th.op)[th.pc]; seen == word || i.RetryIfNonzero? || i.RetryIfZero?
    ensures var i := Code(arch, th.op)[th.pc];
            var e := Exec(i, th.op, th.pc, th.r, seen, th.linked);
            var th' := Busy(th.op, e.pc, e.r, i.LoadLinked? || (th.linked && !IsStoreConditional(i)));
            && e.pc <= |Code(arch, th.op)|
            && Remaining(arch, th', if e.stores then e.val else word) < Remaining(arch, th, word)
  {
    match th.op
    case Cas(_, _) =>
    case Add(_) =>
    case And(_) =>
    case Or(_) =>
    case Put(_) =>
    case Get =>
  }

  /** And the registers stay consistent, while the call takes its step at most once. */
  lemma SoloInstruction(arch: Arch, th: Thread, word: int32, seen: int32)
    requires th.Busy? && HasCode(arch, th.op) && th.pc < |Code(arch, th.op)|
    requires Consistent(arch, th.op, th.pc, th.r, th.linked, word)
    requires var i := Code(arch, th.op)[th.pc]; seen == word || i.RetryIfNonzero? || i.RetryIfZero?
    ensures var op, i := th.op, Code(arch, th.op)[th.pc];
            var e := Exec(i, op, th.pc, th.r, seen, th.linked);
            var word' := if e.stores then e.val else word;
            var th' := Busy(op, e.pc, e.r, i.LoadLinked? || (th.linked && !IsStoreConditional(i)));
            && Consistent(arch, op, e.pc, e.r, th'.linked, word')
            && Remaining(arch, th', word') < Remaining(arch, th, word)
            && if Done(arch, op, th.pc, th.r) then word' == word && e.r.prev == th.r.prev && Done(arch, op, e.pc, e.r)
               else if Done(arch, op, e.pc, e.r) then word' == NewValue(op, word) && (op.Put? || e.r.prev == word)
               else word' == word
  {
    FewerRemain(arch, th, word, seen);
    InstructionIsRight(arch, th, word, th.linked);
    var i := Code(arch, th.op)[th.pc];
    assert i.RetryIfNonzero? || i.RetryIfZero? ==>
        Exec(i, th.op, th.pc, th.r, seen, th.linked) == Exec(i, th.op, th.pc, th.r, word, th.linked);
  }
}
