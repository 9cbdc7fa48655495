/** The retry loops of the atomic headers as loops, run by one thread while everybody else interferes.
    The interference is a finite schedule that is unknown to the loop: before each access to the word,
    others may write it any number of times, and a store-conditional may fail for no reason. */
module AtomicLoops {
  import opened Int32
  import opened AtomicSpec

  /** What happens just before one access: the values others write, and whether a
      store-conditional fails spuriously. */
  datatype Turn = Turn(writes: seq<int32>, spurious: bool)

  function Writes(sched: seq<Turn>): seq<int32> {
    if sched == [] then [] else sched[0].writes + Writes(sched[1..])
  }

  function Spurious(sched: seq<Turn>): nat {
    if sched == [] then 0 else (if sched[0].spurious then 1 else 0) + Spurious(sched[1..])
  }

  /** The word once `writes` have been made to it. */
  function LastOr(w: int32, writes: seq<int32>): int32 {
    if writes == [] then w else writes[|writes| - 1]
  }

  lemma LastOrConcat(w: int32, before: seq<int32>, seen: seq<int32>)
    ensures LastOr(w, before + seen) == LastOr(LastOr(w, before), seen)
  {
  }

  class Word {
    var value: int32
    var linked: bool
    var schedule: seq<Turn>

    constructor (v: int32, sched: seq<Turn>)
      ensures value == v && schedule == sched && !linked
    {
      value, linked, schedule := v, false, sched;
    }

    /** The others move. `seen` are the values they write. */
    method Yield() returns (ghost seen: seq<int32>, spurious: bool)
      modifies this
      ensures value == LastOr(old(value), seen)
      ensures linked == (old(linked) && seen == [])
      ensures Writes(old(schedule)) == seen + Writes(schedule)
      ensures Spurious(old(schedule)) == Spurious(schedule) + if spurious then 1 else 0
    {
      seen, spurious := [], false;
      if schedule != [] {
        var turn := schedule[0];
        schedule := schedule[1..];
        seen, spurious := turn.writes, turn.spurious;
        if turn.writes != [] {
          value, linked := turn.writes[|turn.writes| - 1], false;
        }
      }
    }

    /** ldrex / ll. */
    method LoadLinked() returns (prev: int32, ghost seen: seq<int32>, spurious: bool)
      modifies this
      ensures value == prev == LastOr(old(value), seen) && linked
      ensures Writes(old(schedule)) == seen + Writes(schedule)
      ensures Spurious(old(schedule)) == Spurious(schedule) + if spurious then 1 else 0
    {
      seen, spurious := Yield();
      prev, linked := value, true;
    }

    /** strex / sc. */
    method StoreConditional(v: int32) returns (ok: bool, ghost seen: seq<int32>, spurious: bool)
      modifies this
      ensures ok == (old(linked) && seen == [] && !spurious)
      ensures value == if ok then v else LastOr(old(value), seen)
      ensures Writes(old(schedule)) == seen + Writes(schedule)
      ensures Spurious(old(schedule)) == Spurious(schedule) + if spurious then 1 else 0
    {
      seen, spurious := Yield();
      ok := linked && !spurious;
      if ok { value := v; }
      linked := false;
    }

    /** An ordinary load. */
    method Load() returns (prev: int32, ghost seen: seq<int32>)
      modifies this
      ensures value == prev == LastOr(old(value), seen)
      ensures Writes(old(schedule)) == seen + Writes(schedule)
      ensures Spurious(old(schedule)) >= Spurious(schedule)
    {
      var spurious;
      seen, spurious := Yield();
      prev := value;
    }

    /** android_atomic_cas on arm64 and x86: the exchange itself is one indivisible access. */
    method CompareAndSwap(expected: int32, desired: int32) returns (status: int32, ghost seen: seq<int32>)
      modifies this
      ensures status == Returned(Cas(expected, desired), LastOr(old(value), seen))
      ensures value == NewValue(Cas(expected, desired), LastOr(old(value), seen))
      ensures Writes(old(schedule)) == seen + Writes(schedule)
      ensures Spurious(old(schedule)) >= Spurious(schedule)
    {
      var spurious;
      seen, spurious := Yield();
      status := if value != expected then 1 else 0;
      if value == expected { value := desired; }
    }

    /** One pass of a loop over `op` that began with the word holding `w` and let others write `seen`:
        when it got through, the operation happened at once on top of `seen`; when it has to be
        repeated, it changed nothing. */
    ghost predicate Pass(op: Op, w: int32, seen: seq<int32>, prev: int32, through: bool)
      reads this
    {
      if through then prev == LastOr(w, seen) && value == NewValue(op, prev) else value == LastOr(w, seen)
    }

    /** The asm block of android_atomic_cas, arm: ldrex, mov, teq, strexeq. */
    method ArmCasBlock(expected: int32, desired: int32) returns (prev: int32, status: int32, ghost seen: seq<int32>)
      modifies this
      ensures Pass(Cas(expected, desired), old(value), seen, prev, status == 0)
      ensures Writes(old(schedule)) == seen + Writes(schedule)
      ensures Spurious(schedule) <= Spurious(old(schedule))
      ensures status != 0 ==> seen != [] || Spurious(schedule) < Spurious(old(schedule))
    {
      ghost var more, sp;
      prev, seen, sp := LoadLinked();
      status := 0;
      if prev == expected {
        var ok;
        ok, more, sp := StoreConditional(desired);
        status := if ok then 0 else 1;
        LastOrConcat(old(value), seen, more);
        seen := seen + more;
      }
    }

    /** The asm block of android_atomic_add, and, or, arm: ldrex, the operation, strex. */
    method ArmFetchBlock(op: Op) returns (prev: int32, status: int32, ghost seen: seq<int32>)
      modifies this
      ensures Pass(op, old(value), seen, prev, status == 0)
      ensures Writes(old(schedule)) == seen + Writes(schedule)
      ensures Spurious(schedule) <= Spurious(old(schedule))
      ensures status != 0 ==> seen != [] || Spurious(schedule) < Spurious(old(schedule))
    {
      ghost var more, sp;
      prev, seen, sp := LoadLinked();
      var tmp := NewValue(op, prev);
      var ok;
      ok, more, sp := StoreConditional(tmp);
      status := if ok then 0 else 1;
      LastOrConcat(old(value), seen, more);
      seen := seen + more;
    }

    /** The asm block of android_atomic_cas, mips: ll, li, bne, move, sc. */
    method MipsCasBlock(expected: int32, desired: int32) returns (prev: int32, status: int32, ghost seen: seq<int32>)
      modifies this
      ensures Pass(Cas(expected, desired), old(value), seen, prev, status != 0)
      ensures Writes(old(schedule)) == seen + Writes(schedule)
      ensures Spurious(schedule) <= Spurious(old(schedule))
      ensures status == 0 ==> seen != [] || Spurious(schedule) < Spurious(old(schedule))
    {
      ghost var more, sp;
      prev, seen, sp := LoadLinked();
      status := 1;
      if prev == expected {
        status := desired;
        var ok;
        ok, more, sp := StoreConditional(status);
        status := if ok then 1 else 0;
        LastOrConcat(old(value), seen, more);
        seen := seen + more;
      }
    }

    /** The asm block of android_atomic_add, and, or, mips: ll, the operation, sc. */
    method MipsFetchBlock(op: Op) returns (prev: int32, status: int32, ghost seen: seq<int32>)
      modifies this
      ensures Pass(op, old(value), seen, prev, status != 0)
      ensures Writes(old(schedule)) == seen + Writes(schedule)
      ensures Spurious(schedule) <= Spurious(old(schedule))
      ensures status == 0 ==> seen != [] || Spurious(schedule) < Spurious(old(schedule))
    {
      ghost var more, sp;
      prev, seen, sp := LoadLinked();
      status := NewValue(op, prev);
      var ok;
      ok, more, sp := StoreConditional(status);
      status := if ok then 1 else 0;
      LastOrConcat(old(value), seen, more);
      seen := seen + more;
    }

    /** The loop body of add, and, or on arm64 and of and, or on x86: read, then android_atomic_cas.
        The word may change and change back in between. */
    method ReadCasBlock(op: Op) returns (prev: int32, status: int32, ghost seen: seq<int32>)
      modifies this
      ensures Pass(op, old(value), seen, prev, status == 0)
      ensures Writes(old(schedule)) == seen + Writes(schedule)
      ensures Spurious(schedule) <= Spurious(old(schedule))
      ensures status != 0 ==> seen != []
    {
      ghost var more;
      prev, seen := Load();
      status, more := CompareAndSwap(prev, NewValue(op, prev));
      LastOrConcat(old(value), seen, more);
      seen := seen + more;
    }

    /** The whole call, seen from outside: others wrote `before`, then the operation happened at once
        and returned `r`, and the word has not been written since. */
    ghost predicate HappenedAtOnce(op: Op, w: int32, before: seq<int32>, r: int32)
      reads this
    {
      && r == Returned(op, LastOr(w, before))
      && value == NewValue(op, LastOr(w, before))
    }

    /** android_atomic_cas, arm. */
    method ArmCas(expected: int32, desired: int32) returns (r: int32, ghost before: seq<int32>, ghost passes: nat)
      modifies this
      ensures HappenedAtOnce(Cas(expected, desired), old(value), before, r)
      ensures Writes(old(schedule)) == before + Writes(schedule)
      ensures 1 <= passes <= 1 + |before| + Spurious(old(schedule)) - Spurious(schedule)
    {
      var prev, status := 0, 1;
      before, passes := [], 0;
      while status != 0
        invariant Pass(Cas(expected, desired), old(value), before, prev, status == 0)
        invariant Writes(old(schedule)) == before + Writes(schedule)
        invariant Spurious(schedule) <= Spurious(old(schedule))
        invariant status == 0 ==> passes >= 1
        invariant passes <= (if status == 0 then 1 else 0) + |before| + Spurious(old(schedule)) - Spurious(schedule)
        decreases |Writes(schedule)| + Spurious(schedule), status != 0
      {
        ghost var seen, left := [], Writes(schedule);
        prev, status, seen := ArmCasBlock(expected, desired);
        LastOrConcat(old(value), before, seen);
        assert before + left == (before + seen) + Writes(schedule);
        before, passes := before + seen, passes + 1;
      }
      r := if prev != expected then 1 else 0;
    }

    /** android_atomic_add, and, or, arm. */
    method ArmFetch(op: Op) returns (r: int32, ghost before: seq<int32>, ghost passes: nat)
      requires op.Add? || op.And? || op.Or?
      modifies this
      ensures HappenedAtOnce(op, old(value), before, r)
      ensures Writes(old(schedule)) == before + Writes(schedule)
      ensures 1 <= passes <= 1 + |before| + Spurious(old(schedule)) - Spurious(schedule)
    {
      var prev, status := 0, 1;
      before, passes := [], 0;
      while status != 0
        invariant Pass(op, old(value), before, prev, status == 0)
        invariant Writes(old(schedule)) == before + Writes(schedule)
        invariant Spurious(schedule) <= Spurious(old(schedule))
        invariant status == 0 ==> passes >= 1
        invariant passes <= (if status == 0 then 1 else 0) + |before| + Spurious(old(schedule)) - Spurious(schedule)
        decreases |Writes(schedule)| + Spurious(schedule), status != 0
      {
        ghost var seen, left := [], Writes(schedule);
        prev, status, seen := ArmFetchBlock(op);
        LastOrConcat(old(value), before, seen);
        assert before + left == (before + seen) + Writes(schedule);
        before, passes := before + seen, passes + 1;
      }
      r := prev;
    }

    /** android_atomic_cas, mips: here zero is the status of a failed sc. */
    method MipsCas(expected: int32, desired: int32) returns (r: int32, ghost before: seq<int32>, ghost passes: nat)
      modifies this
      ensures HappenedAtOnce(Cas(expected, desired), old(value), before, r)
      ensures Writes(old(schedule)) == before + Writes(schedule)
      ensures 1 <= passes <= 1 + |before| + Spurious(old(schedule)) - Spurious(schedule)
    {
      var prev, status := 0, 0;
      before, passes := [], 0;
      while status == 0
        invariant Pass(Cas(expected, desired), old(value), before, prev, status != 0)
        invariant Writes(old(schedule)) == before + Writes(schedule)
        invariant Spurious(schedule) <= Spurious(old(schedule))
        invariant status != 0 ==> passes >= 1
        invariant passes <= (if status != 0 then 1 else 0) + |before| + Spurious(old(schedule)) - Spurious(schedule)
        decreases |Writes(schedule)| + Spurious(schedule), status == 0
      {
        ghost var seen, left := [], Writes(schedule);
        prev, status, seen := MipsCasBlock(expected, desired);
        LastOrConcat(old(value), before, seen);
        assert before + left == (before + seen) + Writes(schedule);
        before, passes := before + seen, passes + 1;
      }
      r := if prev != expected then 1 else 0;
    }

    /** android_atomic_add, and, or, mips. */
    method MipsFetch(op: Op) returns (r: int32, ghost before: seq<int32>, ghost passes: nat)
      requires op.Add? || op.And? || op.Or?
      modifies this
      ensures HappenedAtOnce(op, old(value), before, r)
      ensures Writes(old(schedule)) == before + Writes(schedule)
      ensures 1 <= passes <= 1 + |before| + Spurious(old(schedule)) - Spurious(schedule)
    {
      var prev, status := 0, 0;
      before, passes := [], 0;
      while status == 0
        invariant Pass(op, old(value), before, prev, status != 0)
        invariant Writes(old(schedule)) == before + Writes(schedule)
        invariant Spurious(schedule) <= Spurious(old(schedule))
        invariant status != 0 ==> passes >= 1
        invariant passes <= (if status != 0 then 1 else 0) + |before| + Spurious(old(schedule)) - Spurious(schedule)
        decreases |Writes(schedule)| + Spurious(schedule), status == 0
      {
        ghost var seen, left := [], Writes(schedule);
        prev, status, seen := MipsFetchBlock(op);
        LastOrConcat(old(value), before, seen);
        assert before + left == (before + seen) + Writes(schedule);
        before, passes := before + seen, passes + 1;
      }
      r := prev;
    }

    /** android_atomic_add, and, or on arm64; and, or on x86. Only writes by others cost a pass. */
    method ReadCasFetch(op: Op) returns (r: int32, ghost before: seq<int32>, ghost passes: nat)
      requires op.Add? || op.And? || op.Or?
      modifies this
      ensures HappenedAtOnce(op, old(value), before, r)
      ensures Writes(old(schedule)) == before + Writes(schedule)
      ensures 1 <= passes <= 1 + |before|
    {
      var prev, status := 0, 1;
      before, passes := [], 0;
      while status != 0
        invariant Pass(op, old(value), before, prev, status == 0)
        invariant Writes(old(schedule)) == before + Writes(schedule)
        invariant Spurious(schedule) <= Spurious(old(schedule))
        invariant status == 0 ==> passes >= 1
        invariant passes <= (if status == 0 then 1 else 0) + |before|
        decreases |Writes(schedule)| + Spurious(schedule), status != 0
      {
        ghost var seen, left := [], Writes(schedule);
        prev, status, seen := ReadCasBlock(op);
        LastOrConcat(old(value), before, seen);
        assert before + left == (before + seen) + Writes(schedule);
        before, passes := before + seen, passes + 1;
      }
      r := prev;
    }
  }
}
