/** Printing a length with "%04x" into a five-byte buffer, and reading it back with "%04x". */
module Hex {
  import opened Options

  type byte = x: int | 0 <= x < 256

  predicate IsDigit(c: byte) {
    IsLowerDigit(c) || 65 <= c <= 70
  }

  /** The digits "%x" prints: 0 to 9 and a to f. */
  predicate IsLowerDigit(c: byte) {
    48 <= c <= 57 || 97 <= c <= 102
  }

  function DigitValue(c: byte): (v: nat)
    requires IsDigit(c)
    ensures v < 16
  {
    if c <= 57 then c - 48 else if c >= 97 then c - 87 else c - 55
  }

  function Digit(d: nat): (c: byte)
    requires d < 16
    ensures IsLowerDigit(c) && DigitValue(c) == d
  {
    if d < 10 then 48 + d else 87 + d
  }

  /** The hexadecimal digits of n, as many as it takes. */
  function Digits(n: nat): seq<byte> {
    if n < 16 then [Digit(n)] else Digits(n / 16) + [Digit(n % 16)]
  }

  function Zeros(n: nat): seq<byte> {
    seq(n, _ => 48)
  }

  /** "%04x": at least four digits, padded with zeros. */
  function Printed(n: nat): (s: seq<byte>)
    ensures |s| >= 4
  {
    var d := Digits(n);
    if |d| < 4 then Zeros(4 - |d|) + d else d
  }

  /** What snprintf leaves of it in front of the terminating zero of a five-byte buffer. */
  function Header(n: nat): (s: seq<byte>)
    ensures |s| == 4
  {
    Printed(n)[..4]
  }

  predicate AllDigits(s: seq<byte>) {
    forall k | 0 <= k < |s| :: IsDigit(s[k])
  }

  function Value(s: seq<byte>): nat
    requires AllDigits(s)
  {
    if s == [] then 0 else 16 * Value(s[..|s| - 1]) + DigitValue(s[|s| - 1])
  }

  function LeadingDigits(s: seq<byte>): (n: nat)
    ensures n <= |s| && AllDigits(s[..n]) && (n < |s| ==> !IsDigit(s[n]))
  {
    if s == [] || !IsDigit(s[0]) then 0
    else
      var n := LeadingDigits(s[1..]);
      assert s[..n + 1] == [s[0]] + s[1..][..n];
      n + 1
  }

  /** sscanf(header, "%04x", &size): the value of the leading hexadecimal digits, if there are any. */
  function Scan(header: seq<byte>): Option<nat> {
    var n := LeadingDigits(header);
    if n == 0 then None else Some(Value(header[..n]))
  }

  lemma {:induction false} DigitsValue(n: nat)
    ensures AllDigits(Digits(n)) && Value(Digits(n)) == n && Digits(n) != []
    ensures forall k | 0 <= k < |Digits(n)| :: IsLowerDigit(Digits(n)[k])
  {
    if n < 16 {
      assert Digits(n)[..0] == [];
    } else {
      DigitsValue(n / 16);
      assert Digits(n)[..|Digits(n)| - 1] == Digits(n / 16);
    }
  }

  lemma {:induction false} DigitsLength(n: nat, k: nat)
    requires k >= 1
    ensures |Digits(n)| <= k <==> n < Power16(k)
  {
    if n < 16 {
      Power16Grows(k);
    } else if k > 1 {
      DigitsLength(n / 16, k - 1);
    }
  }

  function Power16(k: nat): nat {
    if k == 0 then 1 else 16 * Power16(k - 1)
  }

  lemma {:induction false} Power16Grows(k: nat)
    requires k >= 1
    ensures Power16(k) >= 16
  {
    if k == 1 {
    } else {
      Power16Grows(k - 1);
    }
  }

  lemma {:induction false} PaddedValue(n: nat, s: seq<byte>)
    requires AllDigits(s)
    ensures AllDigits(Zeros(n) + s) && Value(Zeros(n) + s) == Value(s)
  {
    if s == [] && n == 0 {
    } else if s == [] {
      PaddedValue(n - 1, []);
      assert (Zeros(n) + s)[..n - 1] == Zeros(n - 1) + [];
    } else {
      PaddedValue(n, s[..|s| - 1]);
      assert (Zeros(n) + s)[..n + |s| - 1] == Zeros(n) + s[..|s| - 1];
    }
  }

  lemma {:induction false} ValueBound(s: seq<byte>)
    requires AllDigits(s)
    ensures Value(s) < Power16(|s|)
  {
    if s == [] {
    } else {
      ValueBound(s[..|s| - 1]);
    }
  }

  lemma PrintedValue(n: nat)
    ensures forall k | 0 <= k < |Printed(n)| :: IsLowerDigit(Printed(n)[k])
    ensures AllDigits(Printed(n)) && Value(Printed(n)) == n
    ensures |Printed(n)| == 4 <==> n < 0x1_0000
  {
    DigitsValue(n);
    DigitsLength(n, 4);
    assert Power16(4) == 0x1_0000;
    var d := Digits(n);
    if |d| < 4 { PaddedValue(4 - |d|, d); }
  }

  lemma ScanDigits(h: seq<byte>)
    requires h != [] && AllDigits(h)
    ensures Scan(h) == Some(Value(h))
  {
    assert h[..|h|] == h;
  }

  /** The length that was printed is the length read back exactly when it fits in four digits; a longer
      one is read back smaller, because snprintf cut its last digits off. */
  lemma HeaderRoundTrip(n: nat)
    ensures forall k | 0 <= k < 4 :: IsLowerDigit(Header(n)[k])
    ensures Scan(Header(n)).Some?
    ensures Scan(Header(n)).value < 0x1_0000
    ensures Scan(Header(n)) == Some(n) <==> n < 0x1_0000
  {
    PrintedValue(n);
    ScanDigits(Header(n));
    ValueBound(Header(n));
    assert Power16(4) == 0x1_0000;
    if n < 0x1_0000 { assert Header(n) == Printed(n); }
  }

  // ---- The digits themselves ----

  /** The digits printed are the characters 0 to 9 and a to f, in this order. */
  lemma DigitCharacters(d: nat)
    requires d < 16
    ensures Digit(d) == "0123456789abcdef"[d] as int
    ensures forall e: nat | e < d :: Digit(e) < Digit(d)
  {
  }

  /** The characters read are those and A to F. */
  lemma DigitValues(c: byte)
    ensures IsDigit(c) <==> c as char in "0123456789abcdefABCDEF"
    ensures IsDigit(c) ==> var v := DigitValue(c);
                           "0123456789abcdef"[v] == c as char || "0123456789ABCDEF"[v] == c as char
  {
  }

  lemma TwoDigits(n: nat)
    requires n >= 16
    ensures Digits(n) == Digits(n / 16) + [Digit(n % 16)]
  {
  }

  /** What is read is the number that the leading digits stand for; none, or no header, is an error. */
  lemma ScanStopsAtOther(d: seq<byte>, rest: seq<byte>)
    requires AllDigits(d) && (rest == [] || !IsDigit(rest[0]))
    ensures Scan(d + rest) == if d == [] then None else Some(Value(d))
  {
    LeadingAre(d, rest);
    assert (d + rest)[..|d|] == d;
  }

  lemma {:induction false} LeadingAre(d: seq<byte>, rest: seq<byte>)
    requires AllDigits(d) && (rest == [] || !IsDigit(rest[0]))
    ensures LeadingDigits(d + rest) == |d|
  {
    if d == [] {
      assert d + rest == rest;
    } else {
      LeadingAre(d[1..], rest);
      assert (d + rest)[1..] == d[1..] + rest;
    }
  }

  /** The header is the length in hexadecimal, most significant digit first. */
  lemma HeaderDigits(n: nat)
    requires n < 0x1_0000
    ensures Header(n) == [Digit(n / 0x1000), Digit(n / 0x100 % 16), Digit(n / 0x10 % 16), Digit(n % 16)]
  {
    DigitsLength(n, 4);
    assert Power16(4) == 0x1_0000;
    var d := Digits(n);
    if n < 16 {
      assert Digits(n) == [Digit(n)];
    } else if n < 0x100 {
      assert Digits(n / 16) == [Digit(n / 16)];
    } else if n < 0x1000 {
      TwoDigits(n / 16);
      assert n / 16 / 16 == n / 0x100;
      assert Digits(n / 0x100) == [Digit(n / 0x100)];
    } else {
      TwoDigits(n / 16);
      assert n / 16 / 16 == n / 0x100;
      TwoDigits(n / 0x100);
      assert n / 0x100 / 16 == n / 0x1000;
      assert Digits(n / 0x1000) == [Digit(n / 0x1000)];
    }
  }

  /** Of a longer length only the leading digits are printed. */
  lemma HeaderIsCut(n: nat)
    requires n >= 0x1_0000
    ensures Header(n) == Header(n / 16)
  {
    DigitsLength(n / 16, 3);
    assert Power16(3) == 0x1000;
    assert Digits(n)[..4] == Digits(n / 16)[..4];
  }
}
