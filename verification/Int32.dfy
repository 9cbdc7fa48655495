/** The C type int32_t: 32-bit two's complement with wrap-around arithmetic. */
module Int32 {
  import opened Words

  type int32 = x: int | -0x8000_0000 <= x < 0x8000_0000

  const MAX: int32 := 0x7fff_ffff
  const MODULUS: int := 0x1_0000_0000

  /** The int32_t that an exact result is truncated to. */
  function Wrap(x: int): (r: int32)
    ensures (x - r) % MODULUS == 0
  {
    (x + 0x8000_0000) % 0x1_0000_0000 - 0x8000_0000
  }

  /** The conversion to uint32_t. */
  function Unsigned(x: int32): nat {
    if x < 0 then x + MODULUS else x
  }

  /** Bit b of an int32_t is one: (uint32_t) x >> b is odd. */
  predicate BitSet(x: int32, b: nat) {
    (Unsigned(x) / Power2(b)) % 2 == 1
  }

  /** The 32 binary digits of an int32_t, and the int32_t with given digits. */
  function Bits(x: int32): Word {
    Digits(Unsigned(x), BITS_PER_WORD)
  }

  function FromBits(w: Word): int32 {
    Wrap(Number(w))
  }

  function BitAnd(x: int32, y: int32): int32 {
    FromBits(And(Bits(x), Bits(y)))
  }

  function BitOr(x: int32, y: int32): int32 {
    FromBits(Or(Bits(x), Bits(y)))
  }

  /** Every pattern of digits is that of exactly one int32_t. */
  lemma BitsFromBits(w: Word)
    ensures Bits(FromBits(w)) == w
  {
    NumberBound(w);
    WordRange();
    assert Number(w) == Unsigned(FromBits(w));
    DigitsOfNumber(w);
  }

  lemma BitsOfOperators(x: int32, y: int32)
    ensures Bits(BitAnd(x, y)) == And(Bits(x), Bits(y))
    ensures Bits(BitOr(x, y)) == Or(Bits(x), Bits(y))
  {
    BitsFromBits(And(Bits(x), Bits(y)));
    BitsFromBits(Or(Bits(x), Bits(y)));
  }

  lemma BitsAreBinary(x: int32, b: nat)
    requires b < BITS_PER_WORD
    ensures Bits(x)[b] <==> BitSet(x, b)
  {
    DigitIsBit(Unsigned(x), BITS_PER_WORD, b);
  }

  /** The operators bit by bit. */
  lemma OperatorBits(x: int32, y: int32, b: nat)
    requires b < BITS_PER_WORD
    ensures BitSet(BitAnd(x, y), b) <==> BitSet(x, b) && BitSet(y, b)
    ensures BitSet(BitOr(x, y), b) <==> BitSet(x, b) || BitSet(y, b)
  {
    BitsOfOperators(x, y);
    BitsAreBinary(x, b);
    BitsAreBinary(y, b);
    BitsAreBinary(BitAnd(x, y), b);
    BitsAreBinary(BitOr(x, y), b);
  }

  lemma UnsignedFromBits(w: Word)
    ensures Unsigned(FromBits(w)) == Number(w)
  {
    NumberBound(w);
    WordRange();
  }

  lemma NumberOfBits(x: int32)
    ensures Number(Bits(x)) == Unsigned(x)
  {
    WordRange();
    NumberOfDigits(Unsigned(x), BITS_PER_WORD);
  }

  /** And the operators as arithmetic, without bits. */
  lemma OperatorSums(x: int32, y: int32)
    ensures Unsigned(BitOr(x, y)) + Unsigned(BitAnd(x, y)) == Unsigned(x) + Unsigned(y)
    ensures Unsigned(BitAnd(x, y)) <= Unsigned(x) <= Unsigned(BitOr(x, y))
  {
    NumberOfBits(x);
    NumberOfBits(y);
    UnsignedFromBits(And(Bits(x), Bits(y)));
    UnsignedFromBits(Or(Bits(x), Bits(y)));
    OperatorsAsNumbers(Bits(x), Bits(y), 0);
  }

  /** Wrapping only depends on the argument modulo 2^32. */
  lemma WrapCongruent(x: int, y: int)
    requires (x - y) % MODULUS == 0
    ensures Wrap(x) == Wrap(y)
  {
    var k := (x - y) / MODULUS;
    assert x == y + k * MODULUS;
    assert (x + 0x8000_0000) % MODULUS == (y + 0x8000_0000) % MODULUS;
  }

  lemma WrapIdentity(x: int32)
    ensures Wrap(x) == x
  {
  }

  /** Truncating an intermediate sum does not change the truncated total. */
  lemma WrapAdd(x: int, y: int)
    ensures Wrap(Wrap(x) + y) == Wrap(x + y)
  {
    var d := x - Wrap(x);
    assert (x + y) - (Wrap(x) + y) == d;
    WrapCongruent(x + y, Wrap(x) + y);
  }

  /** Two exact values wrap to the same int32_t exactly when they agree modulo 2^32. */
  lemma WrapEqual(x: int, y: int)
    ensures Wrap(x) == Wrap(y) <==> (x - y) % MODULUS == 0
  {
    var a, b := x + 0x8000_0000, y + 0x8000_0000;
    assert a == MODULUS * (a / MODULUS) + a % MODULUS;
    assert b == MODULUS * (b / MODULUS) + b % MODULUS;
    if Wrap(x) == Wrap(y) {
      assert x - y == MODULUS * (a / MODULUS - b / MODULUS);
    } else if (x - y) % MODULUS == 0 {
      WrapCongruent(x, y);
    }
  }

  /** Two exact values closer than 2^32 wrap to the same int32_t only when equal. */
  lemma WrapInjective(x: int, y: int)
    requires Wrap(x) == Wrap(y)
    requires -MODULUS < x - y < MODULUS
    ensures x == y
  {
    var a, b := x + 0x8000_0000, y + 0x8000_0000;
    assert a == MODULUS * (a / MODULUS) + a % MODULUS;
    assert b == MODULUS * (b / MODULUS) + b % MODULUS;
  }

  lemma WrapIs(x: int, v: nat)
    requires v <= MAX
    ensures Wrap(x) == v <==> x % MODULUS == v
  {
    WrapEqual(x, v);
    assert x == MODULUS * (x / MODULUS) + x % MODULUS;
    if (x - v) % MODULUS == 0 { assert x == v + MODULUS * ((x - v) / MODULUS); }
  }
}
