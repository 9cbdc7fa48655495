/** A 32-bit word as its binary digits, lowest first: the bitwise operators, and the compiler builtins
    that cutils/bitops.h uses on unsigned int. */
module Words {
  const BITS_PER_WORD: nat := 32

  type Word = w: seq<bool> | |w| == BITS_PER_WORD witness seq(BITS_PER_WORD, _ => false)

  const ZERO: Word := seq(BITS_PER_WORD, _ => false)

  function Or(v: Word, w: Word): Word {
    seq(BITS_PER_WORD, b requires 0 <= b < BITS_PER_WORD => v[b] || w[b])
  }

  function And(v: Word, w: Word): Word {
    seq(BITS_PER_WORD, b requires 0 <= b < BITS_PER_WORD => v[b] && w[b])
  }

  function Not(w: Word): Word {
    seq(BITS_PER_WORD, b requires 0 <= b < BITS_PER_WORD => !w[b])
  }

  /** 1 << b. */
  function ShiftedOne(b: nat): Word
    requires b < BITS_PER_WORD
  {
    seq(BITS_PER_WORD, c => c == b)
  }

  /** The positions of the one bits. */
  function Ones(w: Word): set<nat> {
    set b: nat | b < BITS_PER_WORD && w[b]
  }

  /** __builtin_popcount. */
  function Popcount(w: Word): nat {
    |Ones(w)|
  }

  /** ffs: one more than the position of the lowest one bit, or zero when there is none. */
  function Ffs(w: Word): nat {
    LowestFrom(w, 0)
  }

  function LowestFrom(w: Word, b: nat): (r: nat)
    requires b <= BITS_PER_WORD
    ensures r == 0 ==> forall c | b <= c < BITS_PER_WORD :: !w[c]
    ensures r != 0 ==> b < r <= BITS_PER_WORD && w[r - 1] && forall c | b <= c < r - 1 :: !w[c]
    decreases BITS_PER_WORD - b
  {
    if b == BITS_PER_WORD then 0
    else if w[b] then b + 1
    else LowestFrom(w, b + 1)
  }

  // ---- Words as numbers ----

  /** The k lowest binary digits of n. */
  function Digits(n: nat, k: nat): (s: seq<bool>)
    ensures |s| == k
  {
    if k == 0 then [] else [n % 2 == 1] + Digits(n / 2, k - 1)
  }

  function Number(s: seq<bool>): nat {
    if s == [] then 0 else (if s[0] then 1 else 0) + 2 * Number(s[1..])
  }

  function Power2(k: nat): (p: nat)
    ensures p > 0
  {
    if k == 0 then 1 else 2 * Power2(k - 1)
  }

  lemma EightMore(k: nat)
    ensures Power2(k + 8) == 256 * Power2(k)
  {
    assert Power2(k + 2) == 4 * Power2(k);
    assert Power2(k + 4) == 4 * Power2(k + 2);
    assert Power2(k + 6) == 4 * Power2(k + 4);
  }

  lemma WordRange()
    ensures Power2(BITS_PER_WORD) == 0x1_0000_0000
  {
    EightMore(0);
    EightMore(8);
    EightMore(16);
    EightMore(24);
  }

  lemma {:induction false} DigitsOfNumber(s: seq<bool>)
    ensures Digits(Number(s), |s|) == s
  {
    if s == [] {
    } else {
      DigitsOfNumber(s[1..]);
      assert Number(s) / 2 == Number(s[1..]) && (Number(s) % 2 == 1 <==> s[0]);
    }
  }

  lemma {:induction false} NumberBound(s: seq<bool>)
    ensures Number(s) < Power2(|s|)
  {
    if s == [] {
    } else {
      NumberBound(s[1..]);
    }
  }

  lemma {:induction false} NumberOfDigits(n: nat, k: nat)
    requires n < Power2(k)
    ensures Number(Digits(n, k)) == n
  {
    if k == 0 {
    } else {
      NumberOfDigits(n / 2, k - 1);
      assert Digits(n, k)[1..] == Digits(n / 2, k - 1);
    }
  }

  lemma HalfThenDivide(n: nat, p: nat)
    requires p > 0
    ensures (n / 2) / p == n / (2 * p)
  {
    var q, r := n / (2 * p), n % (2 * p);
    assert n == q * (2 * p) + r;
    assert n / 2 == q * p + r / 2;
    assert 0 <= r / 2 < p;
    DivideUnique(n / 2, p, q, r / 2);
  }

  lemma DivideUnique(n: nat, p: nat, q: nat, r: nat)
    requires p > 0 && n == q * p + r && r < p
    ensures n / p == q
  {
    var d := n / p - q;
    assert n == (n / p) * p + n % p;
    assert d * p == r - n % p;
    assert (d >= 1 ==> d * p >= p) && (d <= -1 ==> d * p + p <= 0);
  }

  /** Position b of the digits of n is its bit b: n divided by 2^b is odd. */
  lemma {:induction false} DigitIsBit(n: nat, k: nat, b: nat)
    requires b < k
    ensures Digits(n, k)[b] <==> (n / Power2(b)) % 2 == 1
  {
    if b == 0 {
    } else {
      DigitIsBit(n / 2, k - 1, b - 1);
      HalfThenDivide(n, Power2(b - 1));
    }
  }

  /** A word read as a number has exactly these bits. */
  lemma WordBit(w: Word, b: nat)
    requires b < BITS_PER_WORD
    ensures w[b] <==> (Number(w) / Power2(b)) % 2 == 1
  {
    DigitsOfNumber(w);
    DigitIsBit(Number(w), BITS_PER_WORD, b);
  }

  /** What the bitwise operators do to numbers: or and and share the sum, and never leaves more than
      either operand, or never less, and a word and its complement add up to all ones. */
  lemma {:induction false} DigitwiseSums(v: seq<bool>, w: seq<bool>, o: seq<bool>, a: seq<bool>)
    requires |v| == |w| == |o| == |a|
    requires forall b | 0 <= b < |v| :: o[b] == (v[b] || w[b]) && a[b] == (v[b] && w[b])
    ensures Number(o) + Number(a) == Number(v) + Number(w)
    ensures Number(a) <= Number(v) <= Number(o)
    decreases |v|
  {
    if v == [] {
    } else {
      DigitwiseSums(v[1..], w[1..], o[1..], a[1..]);
    }
  }

  lemma {:induction false} ComplementSum(v: seq<bool>, n: seq<bool>)
    requires |v| == |n| && forall b | 0 <= b < |v| :: n[b] == !v[b]
    ensures Number(v) + Number(n) == Power2(|v|) - 1
    decreases |v|
  {
    if v == [] {
    } else {
      ComplementSum(v[1..], n[1..]);
    }
  }

  lemma {:induction false} SingleDigit(s: seq<bool>, b: nat)
    requires b < |s| && forall c | 0 <= c < |s| :: s[c] <==> c == b
    ensures Number(s) == Power2(b)
    decreases |s|
  {
    if b == 0 {
      NoDigit(s[1..]);
    } else {
      SingleDigit(s[1..], b - 1);
    }
  }

  lemma {:induction false} NoDigit(s: seq<bool>)
    requires forall c | 0 <= c < |s| :: !s[c]
    ensures Number(s) == 0
  {
    if s == [] {
    } else {
      NoDigit(s[1..]);
    }
  }

  /** The C operators on unsigned int, as arithmetic. */
  lemma OperatorsAsNumbers(v: Word, w: Word, b: nat)
    requires b < BITS_PER_WORD
    ensures Number(Or(v, w)) + Number(And(v, w)) == Number(v) + Number(w)
    ensures Number(And(v, w)) <= Number(v) <= Number(Or(v, w))
    ensures Number(Not(v)) == 0xffff_ffff - Number(v)
    ensures Number(ShiftedOne(b)) == Power2(b)
  {
    DigitwiseSums(v, w, Or(v, w), And(v, w));
    ComplementSum(v, Not(v));
    WordRange();
    SingleDigit(ShiftedOne(b), b);
  }
}
