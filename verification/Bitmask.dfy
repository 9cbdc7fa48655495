/** The resource bitmap of cutils/bitops.h: an array of words standing for a set of ids. */
module Bitmask {
  import opened Words

  /** BITS_TO_WORDS, BIT_WORD, BIT_IN_WORD and BIT_MASK. */
  function BitsToWords(n: nat): (w: nat)
    ensures n <= BITS_PER_WORD * w < n + BITS_PER_WORD
  {
    (n + BITS_PER_WORD - 1) / BITS_PER_WORD
  }

  function BitWord(id: nat): nat { id / BITS_PER_WORD }
  function BitInWord(id: nat): nat { id % BITS_PER_WORD }
  function BitMask(id: nat): Word { ShiftedOne(BitInWord(id)) }

  predicate Has(s: seq<Word>, id: nat) {
    BitWord(id) < |s| && s[BitWord(id)][BitInWord(id)]
  }

  /** Every id whose bit is one, in all of the words. */
  function Ids(s: seq<Word>): set<nat> {
    set id: nat | id < BITS_PER_WORD * |s| && Has(s, id)
  }

  /** The ids whose bit is one in the words k that hold ids below num, those with 32 * k < num. */
  function Stored(s: seq<Word>, num: nat): set<nat> {
    set id | id in Ids(s) && BITS_PER_WORD * (id / BITS_PER_WORD) < num
  }

  /** The words that hold num ids represent `ids`; bits past num in the last word are zero. */
  ghost predicate Represents(s: seq<Word>, num: nat, ids: set<nat>) {
    && num <= BITS_PER_WORD * |s|
    && Stored(s, num) == ids
    && forall id | id in ids :: id < num
  }

  /** The words that hold num ids are the first BITS_TO_WORDS of them. */
  lemma StoredIsPrefix(s: seq<Word>, num: nat)
    requires num <= BITS_PER_WORD * |s|
    ensures BitsToWords(num) <= |s| && Stored(s, num) == Ids(s[..BitsToWords(num)])
  {
    var n := BitsToWords(num);
    assert n <= |s|;
    forall id: nat ensures id in Stored(s, num) <==> id in Ids(s[..n]) {
      HasIds(s, id);
      HasIds(s[..n], id);
      assert BITS_PER_WORD * BitWord(id) < num <==> BitWord(id) < n;
    }
  }

  /** An id stands for one bit of one word: bit id % 32, of value 2^(id % 32), of word id / 32. */
  lemma HasIsBit(s: seq<Word>, id: nat)
    ensures Has(s, id) <==>
            id / BITS_PER_WORD < |s| && (Number(s[id / BITS_PER_WORD]) / Power2(id % BITS_PER_WORD)) % 2 == 1
  {
    if BitWord(id) < |s| { WordBit(s[BitWord(id)], BitInWord(id)); }
  }

  lemma HasIds(s: seq<Word>, id: nat)
    ensures id in Ids(s) <==> Has(s, id)
  {
    assert id == BITS_PER_WORD * BitWord(id) + BitInWord(id);
  }

  lemma IdSplit(x: nat, y: nat)
    ensures x == y <==> BitWord(x) == BitWord(y) && BitInWord(x) == BitInWord(y)
  {
    assert x == BITS_PER_WORD * BitWord(x) + BitInWord(x) && y == BITS_PER_WORD * BitWord(y) + BitInWord(y);
  }

  /** The words after bitmask_set, and after bitmask_clear. */
  function WithBit(s: seq<Word>, id: nat): seq<Word>
    requires BitWord(id) < |s|
  {
    s[BitWord(id) := Or(s[BitWord(id)], BitMask(id))]
  }

  function WithoutBit(s: seq<Word>, id: nat): seq<Word>
    requires BitWord(id) < |s|
  {
    s[BitWord(id) := And(s[BitWord(id)], Not(BitMask(id)))]
  }

  /** Setting a bit adds exactly that id, clearing it removes exactly that id. */
  lemma IdsAfterUpdate(s: seq<Word>, id: nat)
    requires BitWord(id) < |s|
    ensures Ids(WithBit(s, id)) == Ids(s) + {id}
    ensures Ids(WithoutBit(s, id)) == Ids(s) - {id}
  {
    forall x: nat
      ensures x in Ids(WithBit(s, id)) <==> x in Ids(s) + {id}
      ensures x in Ids(WithoutBit(s, id)) <==> x in Ids(s) - {id}
    {
      HasIds(s, x); HasIds(WithBit(s, id), x); HasIds(WithoutBit(s, id), x); IdSplit(x, id);
    }
  }

  /** Both keep the bits past num in the last word zero. */
  lemma UpdatesRepresent(s: seq<Word>, num: nat, ids: set<nat>, id: nat)
    requires Represents(s, num, ids) && id < num
    ensures BitWord(id) < |s|
    ensures Represents(WithBit(s, id), num, ids + {id})
    ensures Represents(WithoutBit(s, id), num, ids - {id})
  {
    IdsAfterUpdate(s, id);
  }

  /** bitmask_init. */
  method Init(bitmask: array<Word>, num: nat)
    requires num <= BITS_PER_WORD * bitmask.Length
    modifies bitmask
    ensures Represents(bitmask[..], num, {})
    ensures forall k | 0 <= k < bitmask.Length && BITS_PER_WORD * k >= num :: bitmask[k] == old(bitmask[k])
  {
    for i := 0 to BitsToWords(num)
      invariant forall k | 0 <= k < i :: bitmask[k] == ZERO
      invariant forall k | BitsToWords(num) <= k < bitmask.Length :: bitmask[k] == old(bitmask[k])
    {
      bitmask[i] := ZERO;
    }
    ghost var s := bitmask[..][..BitsToWords(num)];
    forall id: nat ensures id !in Ids(s) { HasIds(s, id); }
    StoredIsPrefix(bitmask[..], num);
  }

  /** bitmask_set. */
  method Set(bitmask: array<Word>, id: nat)
    requires BitWord(id) < bitmask.Length
    modifies bitmask
    ensures bitmask[..] == WithBit(old(bitmask[..]), id)
    ensures Ids(bitmask[..]) == old(Ids(bitmask[..])) + {id}
  {
    IdsAfterUpdate(bitmask[..], id);
    bitmask[BitWord(id)] := Or(bitmask[BitWord(id)], BitMask(id));
    assert bitmask[..] == WithBit(old(bitmask[..]), id);
  }

  /** bitmask_clear. */
  method Clear(bitmask: array<Word>, id: nat)
    requires BitWord(id) < bitmask.Length
    modifies bitmask
    ensures bitmask[..] == WithoutBit(old(bitmask[..]), id)
    ensures Ids(bitmask[..]) == old(Ids(bitmask[..])) - {id}
  {
    IdsAfterUpdate(bitmask[..], id);
    bitmask[BitWord(id)] := And(bitmask[BitWord(id)], Not(BitMask(id)));
    assert bitmask[..] == WithoutBit(old(bitmask[..]), id);
  }

  /** bitmask_test. */
  method Test(bitmask: array<Word>, id: nat) returns (r: bool)
    requires BitWord(id) < bitmask.Length
    ensures r <==> id in Ids(bitmask[..])
  {
    var masked := And(bitmask[BitWord(id)], BitMask(id));
    r := masked != ZERO;
    HasIds(bitmask[..], id);
    if Has(bitmask[..], id) { assert masked[BitInWord(id)]; }
  }

  /** What ffs of the complemented word says about the ids of word i. */
  lemma LowestZero(s: seq<Word>, i: nat)
    requires i < |s|
    ensures var bit := Ffs(Not(s[i]));
            if bit == 0 then forall id: nat | BITS_PER_WORD * i <= id < BITS_PER_WORD * (i + 1) :: Has(s, id)
            else && bit <= BITS_PER_WORD && !Has(s, BITS_PER_WORD * i + bit - 1)
                 && forall id: nat | BITS_PER_WORD * i <= id < BITS_PER_WORD * i + bit - 1 :: Has(s, id)
  {
    var bit := Ffs(Not(s[i]));
    forall id: nat | BITS_PER_WORD * i <= id < BITS_PER_WORD * (i + 1)
      ensures Has(s, id) <==> !Not(s[i])[id - BITS_PER_WORD * i]
    {
      assert BitWord(id) == i && BitInWord(id) == id - BITS_PER_WORD * i;
    }
  }

  /** bitmask_ffz: the least id not in the set, or -1 when all num ids are; whatever the bits past num. */
  method Ffz(bitmask: array<Word>, num: nat) returns (r: int)
    requires num <= BITS_PER_WORD * bitmask.Length
    ensures r == -1 <==> forall id: nat | id < num :: Has(bitmask[..], id)
    ensures r != -1 ==> 0 <= r < num && !Has(bitmask[..], r) && forall id: nat | id < r :: Has(bitmask[..], id)
  {
    var i := 0;
    while i < BitsToWords(num)
      invariant i <= BitsToWords(num)
      invariant forall id: nat | id < BITS_PER_WORD * i :: Has(bitmask[..], id)
    {
      var bit := Ffs(Not(bitmask[i]));
      LowestZero(bitmask[..], i);
      if bit != 0 {
        bit := bit - 1;
        var result := BITS_PER_WORD * i + bit;
        if result >= num { return -1; }
        return result;
      }
      i := i + 1;
    }
    return -1;
  }

  function Shifted(xs: set<nat>, n: nat): set<nat> {
    set x | x in xs :: n + x
  }

  lemma {:induction false} ShiftedSize(xs: set<nat>, n: nat)
    ensures |Shifted(xs, n)| == |xs|
  {
    if xs == {} {
    } else {
      var x :| x in xs;
      ShiftedSize(xs - {x}, n);
      forall y ensures y in Shifted(xs, n) <==> y in Shifted(xs - {x}, n) + {n + x} {
        if y in Shifted(xs, n) { var z :| z in xs && y == n + z; assert z == x || z in xs - {x}; }
      }
      assert Shifted(xs, n) == Shifted(xs - {x}, n) + {n + x};
    }
  }

  /** One more word adds as many ids as it has one bits. */
  lemma WordAddsItsOnes(s: seq<Word>, i: nat)
    requires i < |s|
    ensures |Ids(s[..i + 1])| == |Ids(s[..i])| + Popcount(s[i])
  {
    var new_ := Shifted(Ones(s[i]), BITS_PER_WORD * i);
    forall x: nat ensures x in Ids(s[..i + 1]) <==> x in Ids(s[..i]) || x in new_ {
      HasIds(s[..i + 1], x); HasIds(s[..i], x);
      assert x == BITS_PER_WORD * BitWord(x) + BitInWord(x);
      if BitWord(x) == i && s[i][BitInWord(x)] { assert BitInWord(x) in Ones(s[i]); }
    }
    assert Ids(s[..i + 1]) == Ids(s[..i]) + new_;
    assert Ids(s[..i]) !! new_;
    ShiftedSize(Ones(s[i]), BITS_PER_WORD * i);
  }

  /** bitmask_weight counts every one bit of the words that hold num ids, also those past num. */
  method Weight(bitmask: array<Word>, num: nat) returns (weight: nat)
    requires num <= BITS_PER_WORD * bitmask.Length
    ensures weight == |Stored(bitmask[..], num)|
  {
    weight := 0;
    ghost var s := bitmask[..];
    assert Ids(s[..0]) == {};
    StoredIsPrefix(s, num);
    for i := 0 to BitsToWords(num)
      invariant weight == |Ids(s[..i])|
    {
      WordAddsItsOnes(s, i);
      weight := weight + Popcount(bitmask[i]);
    }
  }

  function Below(ids: set<nat>, num: nat): set<nat> {
    set id | id in ids && id < num
  }

  /** So the weight is the number of ids in use exactly when no bit past num is set. */
  lemma WeightIsExactOnCleanTail(s: seq<Word>, num: nat)
    requires num <= BITS_PER_WORD * |s|
    ensures var all := Stored(s, num); |all| == |Below(all, num)| <==> Represents(s, num, all)
  {
    var all := Stored(s, num);
    var inside := Below(all, num);
    assert all == inside + (all - inside) && |all| == |inside| + |all - inside|;
    if |all| == |inside| {
      assert all - inside == {};
      forall id | id in all ensures id < num { assert id !in all - inside; }
    } else {
      assert all != inside;
    }
  }

  lemma OneMoreId(ids: set<nat>, id: nat, num: nat)
    requires Below(ids, num) == ids
    ensures |ids + {id}| == |Below(ids + {id}, num)| + if id < num then 0 else 1
  {
    assert Below(ids + {id}, num) == if id < num then ids + {id} else ids;
    assert id >= num ==> id !in Below(ids, num);
  }

  /** bitmask_set of an id past num that falls into the last word makes the weight one too many, and
      nothing else that bitmask_set can do makes it wrong. */
  lemma WeightCountsIdsPastTheEnd(s: seq<Word>, num: nat, ids: set<nat>, id: nat)
    requires Represents(s, num, ids) && BitWord(id) < |s|
    ensures var all := Stored(WithBit(s, id), num);
            |all| == |Below(all, num)| + if id >= num > BITS_PER_WORD * (id / BITS_PER_WORD) then 1 else 0
  {
    assert Below(ids, num) == ids;
    IdsAfterUpdate(s, id);
    if num > BITS_PER_WORD * BitWord(id) {
      assert Stored(WithBit(s, id), num) == ids + {id};
      OneMoreId(ids, id, num);
    } else {
      assert Stored(WithBit(s, id), num) == ids;
    }
  }

  /** On a bitmap that represents a set, ffz and test talk about that set. */
  lemma RepresentsHas(s: seq<Word>, num: nat, ids: set<nat>)
    requires Represents(s, num, ids)
    ensures forall id: nat | id < num :: Has(s, id) <==> id in ids
  {
    forall id: nat | id < num ensures Has(s, id) <==> id in ids {
      HasIds(s, id);
    }
  }

  // ---- Sequences of calls ----

  datatype Op = SetOp(id: nat) | ClearOp(id: nat)

  function Fold(ids: set<nat>, ops: seq<Op>): set<nat> {
    if ops == [] then ids
    else (var before := Fold(ids, ops[..|ops| - 1]);
          match ops[|ops| - 1]
          case SetOp(id) => before + {id}
          case ClearOp(id) => before - {id})
  }

  /** After bitmask_init and any sequence of sets and clears in range, the words represent exactly the
      abstract set, bitmask_test answers membership for every id and bitmask_weight its size. */
  method Session(bitmask: array<Word>, num: nat, ops: seq<Op>) returns (members: seq<bool>, weight: nat)
    requires num <= BITS_PER_WORD * bitmask.Length
    requires forall k | 0 <= k < |ops| :: ops[k].id < num
    modifies bitmask
    ensures Represents(bitmask[..], num, Fold({}, ops))
    ensures |members| == num && forall id: nat | id < num :: members[id] <==> id in Fold({}, ops)
    ensures weight == |Fold({}, ops)|
  {
    Init(bitmask, num);
    for k := 0 to |ops|
      invariant Represents(bitmask[..], num, Fold({}, ops[..k]))
    {
      assert ops[..k + 1][..k] == ops[..k];
      UpdatesRepresent(bitmask[..], num, Fold({}, ops[..k]), ops[k].id);
      match ops[k]
      case SetOp(id) => Set(bitmask, id);
      case ClearOp(id) => Clear(bitmask, id);
    }
    assert ops[..|ops|] == ops;
    members := [];
    for id := 0 to num
      invariant Represents(bitmask[..], num, Fold({}, ops))
      invariant |members| == id && forall x: nat | x < id :: members[x] <==> x in Fold({}, ops)
    {
      RepresentsHas(bitmask[..], num, Fold({}, ops));
      HasIds(bitmask[..], id);
      var b := Test(bitmask, id);
      members := members + [b];
    }
    weight := Weight(bitmask, num);
  }

  function Range(num: nat): (r: set<nat>)
    ensures forall id: nat :: id in r <==> id < num
    ensures |r| == num
  {
    if num == 0 then {} else Range(num - 1) + {num - 1}
  }

  lemma Fits(ids: set<nat>, num: nat)
    requires forall id | id in ids :: id < num
    ensures |ids| <= num
  {
    assert Range(num) == ids + (Range(num) - ids);
    assert |Range(num)| == |ids| + |Range(num) - ids|;
  }

  /** One allocation, ffz then set: the least free id, now taken; or -1, when all num ids were taken. */
  method Allocate(bitmask: array<Word>, num: nat, ghost ids: set<nat>) returns (bit: int)
    requires Represents(bitmask[..], num, ids)
    modifies bitmask
    ensures bit == -1 <==> ids == Range(num)
    ensures bit == -1 ==> bitmask[..] == old(bitmask[..])
    ensures bit != -1 ==> 0 <= bit < num && bit !in ids && (forall id: nat | id < bit :: id in ids)
                          && Represents(bitmask[..], num, ids + {bit})
  {
    bit := Ffz(bitmask, num);
    RepresentsHas(bitmask[..], num, ids);
    assert Range(num) == ids <==> forall id: nat | id < num :: id in ids;
    if bit != -1 {
      UpdatesRepresent(bitmask[..], num, ids, bit);
      Set(bitmask, bit);
    }
  }

  function Elements(s: seq<nat>): set<nat> {
    if s == [] then {} else Elements(s[..|s| - 1]) + {s[|s| - 1]}
  }

  predicate Increasing(s: seq<nat>) {
    forall i, j | 0 <= i < j < |s| :: s[i] < s[j]
  }

  predicate AllBelow(s: seq<nat>, n: int) {
    forall k | 0 <= k < |s| :: s[k] < n
  }

  /** `taken` lists, in increasing order, what has been added to `ids` to make `now`. */
  ghost predicate Handed(ids: set<nat>, now: set<nat>, taken: seq<nat>) {
    && ids <= now
    && Elements(taken) == now - ids
    && |now| == |ids| + |taken|
    && Increasing(taken)
  }

  lemma HandedOne(ids: set<nat>, now: set<nat>, taken: seq<nat>, bit: nat)
    requires Handed(ids, now, taken) && bit !in now && AllBelow(taken, bit)
    ensures Handed(ids, now + {bit}, taken + [bit]) && AllBelow(taken + [bit], bit + 1)
  {
    assert (taken + [bit])[..|taken|] == taken;
  }

  /** The next free id lies above the one just taken. */
  lemma Later(now: set<nat>, bit: nat, next: nat, taken: seq<nat>)
    requires forall id: nat | id < bit :: id in now
    requires next !in now + {bit} && AllBelow(taken, bit + 1)
    ensures next > bit && AllBelow(taken, next)
  {
  }

  /** Allocating until -1 hands out, in increasing order, exactly the ids that were free: as many as num
      less the weight. */
  method AllocateAll(bitmask: array<Word>, num: nat, ghost ids: set<nat>) returns (taken: seq<nat>)
    requires Represents(bitmask[..], num, ids)
    modifies bitmask
    ensures Represents(bitmask[..], num, Range(num))
    ensures Increasing(taken)
    ensures Elements(taken) == Range(num) - ids
    ensures |taken| == num - |ids|
  {
    taken := [];
    ghost var now: set<nat> := ids;
    Fits(now, num);
    var bit := Allocate(bitmask, num, now);
    while bit != -1
      invariant Handed(ids, now, taken) && |now| <= num
      invariant bit == -1 ==> now == Range(num) && Represents(bitmask[..], num, now)
      invariant bit != -1 ==> 0 <= bit < num && bit !in now && (forall id: nat | id < bit :: id in now)
      invariant bit != -1 ==> AllBelow(taken, bit) && Represents(bitmask[..], num, now + {bit as nat})
      decreases num - |now|
    {
      var b: nat := bit;
      HandedOne(ids, now, taken, b);
      Fits(now + {b}, num);
      bit := Allocate(bitmask, num, now + {b});
      if bit != -1 { Later(now, b, bit, taken + [b]); }
      now, taken := now + {b}, taken + [b];
    }
  }
}
