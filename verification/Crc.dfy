/** The PDU CRC register (src/cfdp_crc.c) and its meaning as a remainder over
    GF(2), the definition in section 4.2.1.3 of CCSDS 232.0-B-3.
    Registers, octets and messages are numbers; `^` of C is `Xor`, and a left shift
    of a 16-bit register is doubling modulo 2^16. */
module Crc {
  import opened Octets
  import opened Endian
  import opened Gf2

  const POLYNOMIAL: uint16 := 0x1021
  const INIT: uint16 := 0xFFFF

  /** Bitwise exclusive or. */
  function Xor(a: nat, b: nat): nat
    decreases a + b
  {
    if a == 0 then b else if b == 0 then a else 2 * Xor(a / 2, b / 2) + (a + b) % 2
  }

  lemma Pow2Sixteen()
    ensures Pow2(16) == 0x1_0000
  {
    assert Pow2(4) == 16;
    assert Pow2(8) == 256;
    assert Pow2(12) == 4096;
  }

  lemma {:induction false} XorBelow(a: nat, b: nat, n: nat)
    requires a < Pow2(n) && b < Pow2(n)
    ensures Xor(a, b) < Pow2(n)
    decreases n
  {
    if n > 0 && a != 0 && b != 0 {
      XorBelow(a / 2, b / 2, n - 1);
    }
  }

  function Xor16(a: uint16, b: uint16): uint16 {
    Pow2Sixteen();
    XorBelow(a, b, 16);
    Xor(a, b)
  }

  /** One clock pulse of the shift register. */
  function ShiftOne(c: uint16): uint16 {
    if c >= 0x8000 then Xor16(2 * c % 0x1_0000, POLYNOMIAL) else 2 * c % 0x1_0000
  }

  function Shift(c: uint16, n: nat): uint16 {
    if n == 0 then c else ShiftOne(Shift(c, n - 1))
  }

  /** The register after the octets of `s` have been shifted in. */
  function Update(c: uint16, s: octets): uint16 {
    if s == [] then c else Shift(Xor16(Update(c, s[..|s| - 1]), 256 * (s[|s| - 1] as int)), 8)
  }

  function Compute(s: octets): uint16 {
    Update(INIT, s)
  }

  /** cfdp_crc_update */
  method CrcUpdate(init: uint16, data: octets) returns (crc: uint16)
    ensures crc == Update(init, data)
  {
    crc := init;
    if |data| == 0 {
      return;
    }
    for i := 0 to |data|
      invariant crc == Update(init, data[..i])
    {
      assert data[..i + 1][..i] == data[..i];
      crc := Xor16(crc, 256 * (data[i] as int));
      ghost var fed := crc;
      for bit := 0 to 8
        invariant crc == Shift(fed, bit)
      {
        var msbSet := crc >= 0x8000;
        crc := 2 * crc % 0x1_0000;
        if msbSet {
          crc := Xor16(crc, POLYNOMIAL);
        }
      }
    }
    assert data[..|data|] == data;
  }

  /** cfdp_crc_compute */
  method CrcCompute(data: octets) returns (crc: uint16)
    ensures crc == Compute(data)
  {
    crc := CrcUpdate(INIT, data);
  }

  // ---------------------------------------------------------------------------
  // Numbers as polynomials
  // ---------------------------------------------------------------------------

  /** The polynomial whose coefficients are the binary digits of `n`. */
  function PolyOf(n: nat): Poly {
    if n == 0 then {} else Add(Unit(n % 2), Times(1, PolyOf(n / 2)))
  }

  /** A polynomial of degree 0. */
  function Unit(b: nat): Poly {
    if b == 1 then {0} else {}
  }

  lemma Digits(n: nat)
    ensures PolyOf(n) == Add(Unit(n % 2), Times(1, PolyOf(n / 2)))
  {
  }

  lemma DigitsOfXor(a: nat, b: nat)
    requires a != 0 && b != 0
    ensures PolyOf(Xor(a, b)) == Add(Unit((a + b) % 2), Times(1, PolyOf(Xor(a / 2, b / 2))))
  {
    var x, half := Xor(a, b), Xor(a / 2, b / 2);
    assert x == 2 * half + (a + b) % 2;
    assert x / 2 == half && x % 2 == (a + b) % 2;
    Digits(x);
  }

  lemma UnitParity(a: nat, b: nat)
    ensures Unit((a + b) % 2) == Add(Unit(a % 2), Unit(b % 2))
  {
  }

  lemma {:induction false} PolyOfXor(a: nat, b: nat)
    ensures PolyOf(Xor(a, b)) == Add(PolyOf(a), PolyOf(b))
    decreases a + b
  {
    if a != 0 && b != 0 {
      var p, q := PolyOf(a / 2), PolyOf(b / 2);
      PolyOfXor(a / 2, b / 2);
      DigitsOfXor(a, b);
      UnitParity(a, b);
      TimesAdd(1, p, q);
      AddInterchange(Unit(a % 2), Unit(b % 2), Times(1, p), Times(1, q));
      Digits(a);
      Digits(b);
    }
  }

  lemma {:induction false} PolyOfDegree(n: nat, k: nat)
    requires n < Pow2(k)
    ensures DegreeBelow(PolyOf(n), k)
  {
    if n > 0 {
      PolyOfDegree(n / 2, k - 1);
    }
  }

  lemma RegisterDegree(c: uint16)
    ensures DegreeBelow(PolyOf(c), 16)
  {
    Pow2Sixteen();
    PolyOfDegree(c, 16);
  }

  /** Distinct numbers are distinct polynomials. */
  lemma {:induction false} PolyOfInjective(a: nat, b: nat)
    requires PolyOf(a) == PolyOf(b)
    ensures a == b
    decreases a + b
  {
    if a + b > 0 {
      Digits(a);
      Digits(b);
      var p, q := PolyOf(a / 2), PolyOf(b / 2);
      assert 0 in PolyOf(a) <==> a % 2 == 1;
      assert 0 in PolyOf(b) <==> b % 2 == 1;
      forall e: nat
        ensures e in p <==> e in q
      {
        assert e in p <==> e + 1 in PolyOf(a);
        assert e in q <==> e + 1 in PolyOf(b);
      }
      PolyOfInjective(a / 2, b / 2);
    }
  }

  /** Doubling is multiplication by x. */
  lemma PolyOfDouble(n: nat)
    ensures PolyOf(2 * n) == Times(1, PolyOf(n))
  {
    Digits(2 * n);
    assert 2 * n / 2 == n && 2 * n % 2 == 0;
  }

  lemma DigitsOfSum(n: nat, d: nat, k: nat)
    requires k > 0
    ensures PolyOf(Pow2(k) * n + d) == Add(Unit(d % 2), Times(1, PolyOf(Pow2(k - 1) * n + d / 2)))
  {
    var m := Pow2(k - 1) * n;
    assert Pow2(k) * n == 2 * m;
    assert (2 * m + d) / 2 == m + d / 2 && (2 * m + d) % 2 == d % 2;
    Digits(2 * m + d);
  }

  lemma NoDigits(n: nat, d: nat)
    requires d == 0
    ensures PolyOf(Pow2(0) * n + d) == Add(Times(0, PolyOf(n)), PolyOf(d))
  {
    assert Pow2(0) * n + d == n;
    assert Add(Times(0, PolyOf(n)), {}) == PolyOf(n);
  }

  /** Adding below the lowest digit is addition of polynomials. */
  lemma {:induction false} PolyOfSum(n: nat, d: nat, k: nat)
    requires d < Pow2(k)
    ensures PolyOf(Pow2(k) * n + d) == Add(Times(k, PolyOf(n)), PolyOf(d))
  {
    if k == 0 {
      NoDigits(n, d);
    } else {
      DigitsOfSum(n, d, k);
      PolyOfSum(n, d / 2, k - 1);
      Digits(d);
      TimesAdd(1, Times(k - 1, PolyOf(n)), PolyOf(d / 2));
      TimesTimes(1, k - 1, PolyOf(n));
      AddRotate(Unit(d % 2), Times(k, PolyOf(n)), Times(1, PolyOf(d / 2)));
    }
  }

  lemma PolyOfShifted(n: nat, k: nat)
    ensures PolyOf(Pow2(k) * n) == Times(k, PolyOf(n))
  {
    PolyOfSum(n, 0, k);
    assert Add(Times(k, PolyOf(n)), {}) == Times(k, PolyOf(n));
  }

  // ---------------------------------------------------------------------------
  // The register is a remainder
  // ---------------------------------------------------------------------------

  /** 2^i + r, with r below 2^i. */
  lemma LeadingDigit(i: nat, r: nat)
    requires r < Pow2(i)
    ensures PolyOf(Pow2(i) + r) == Add({i}, PolyOf(r))
  {
    PolyOfOne();
    TimesOne(i);
    OneTimes(Pow2(i), 1);
    PolyOfSum(1, r, i);
  }

  lemma OneTimes(p: nat, k: nat)
    requires k == 1
    ensures p * k == p
  {
  }

  lemma TimesOne(i: nat)
    ensures Times(i, {0}) == {i}
  {
  }

  lemma LowTerms(n: nat, last: nat)
    requires n == 0x21 && last == 1
    ensures PolyOf(n) == Add({5}, {0})
  {
    assert Pow2(5) == 0x20;
    LeadingDigit(5, last);
    PolyOfOne();
  }

  /** The binary digits of the constant are x^12 + x^5 + 1. */
  lemma GeneratorPoly(g: nat)
    requires g == POLYNOMIAL
    ensures PolyOf(g) == {12, 5, 0}
  {
    Pow2Twelve();
    LeadingDigit(12, g - 0x1000);
    LowTerms(g - 0x1000, 1);
    ThreeTerms();
  }

  lemma ThreeTerms()
    ensures Add({12}, Add({5}, {0})) == {12, 5, 0}
  {
  }

  lemma Pow2Twelve()
    ensures Pow2(12) == 0x1000
  {
    assert Pow2(6) == 0x40;
  }

  lemma PolyOfOne()
    ensures PolyOf(1) == {0}
  {
  }

  /** One pulse multiplies the register by x modulo G. */
  lemma ShiftOnePoly(c: uint16)
    ensures Congruent(PolyOf(ShiftOne(c)), Times(1, PolyOf(c)))
  {
    ShiftOneCases(c);
    PolyOfDouble(c);
    if c < 0x8000 {
      CongruentRefl(PolyOf(2 * c));
    } else {
      TopDigitOut(2 * c, ShiftOne(c));
    }
  }

  lemma Doubled(c: uint16)
    ensures c < 0x8000 ==> 2 * c % 0x1_0000 == 2 * c
    ensures c >= 0x8000 ==> 2 * c % 0x1_0000 == 2 * c - 0x1_0000
  {
  }

  lemma ShiftOneCases(c: uint16)
    ensures c < 0x8000 ==> ShiftOne(c) == 2 * c
    ensures c >= 0x8000 ==> ShiftOne(c) == Xor(2 * c - 0x1_0000, POLYNOMIAL)
  {
    Doubled(c);
  }

  lemma TopDigitOut(n: nat, r: nat)
    requires 0x1_0000 <= n < 0x2_0000
    requires r == Xor(n - 0x1_0000, POLYNOMIAL)
    ensures Congruent(PolyOf(r), PolyOf(n))
  {
    var d := n - 0x1_0000;
    Reduced(d, POLYNOMIAL);
    Pow2Sixteen();
    LeadingDigit(16, d);
    Overflow(PolyOf(d));
  }

  lemma Reduced(d: nat, g: nat)
    requires g == POLYNOMIAL
    ensures PolyOf(Xor(d, g)) == Add(PolyOf(d), {12, 5, 0})
  {
    PolyOfXor(d, g);
    GeneratorPoly(g);
  }

  lemma Overflow(p: Poly)
    ensures Divisible(Add(Add(p, {12, 5, 0}), Add({16}, p)))
  {
    GIsMultiple();
    forall e: nat
      ensures e in Add(Add(p, {12, 5, 0}), Add({16}, p)) <==> e in G
    {
    }
    assert Add(Add(p, {12, 5, 0}), Add({16}, p)) == G;
  }

  lemma {:induction false} ShiftPoly(c: uint16, n: nat)
    ensures Congruent(PolyOf(Shift(c, n)), Times(n, PolyOf(c)))
  {
    if n == 0 {
      assert Times(0, PolyOf(c)) == PolyOf(c);
      CongruentRefl(PolyOf(c));
    } else {
      ShiftPoly(c, n - 1);
      ShiftOnePoly(Shift(c, n - 1));
      CongruentTimes(1, PolyOf(Shift(c, n - 1)), Times(n - 1, PolyOf(c)));
      TimesTimes(1, n - 1, PolyOf(c));
      CongruentTrans(PolyOf(Shift(c, n)), Times(1, PolyOf(Shift(c, n - 1))), Times(n, PolyOf(c)));
    }
  }

  /** The message as a polynomial: its octets read as one binary number, so the
      first bit of the first octet has the highest exponent. */
  function MessagePoly(s: octets): Poly {
    PolyOf(FromBigEndian(s))
  }

  lemma MessageStep(s: octets)
    requires s != []
    ensures MessagePoly(s) == Add(Times(8, MessagePoly(s[..|s| - 1])), PolyOf(s[|s| - 1]))
  {
    assert Pow2(8) == 256;
    PolyOfSum(FromBigEndian(s[..|s| - 1]), s[|s| - 1], 8);
  }

  /** The dividend of section 4.2.1.3: the preset followed by the message, both
      moved past the sixteen check bits. */
  function Dividend(c: uint16, s: octets): Poly {
    Add(Times(8 * |s|, PolyOf(c)), Times(16, MessagePoly(s)))
  }

  /** The register after `s` is the remainder of the dividend by G. */
  lemma {:induction false} UpdateIsRemainder(c: uint16, s: octets)
    ensures DegreeBelow(PolyOf(Update(c, s)), 16)
    ensures Congruent(PolyOf(Update(c, s)), Dividend(c, s))
  {
    RegisterDegree(Update(c, s));
    if s == [] {
      assert Dividend(c, s) == PolyOf(c);
      CongruentRefl(PolyOf(c));
    } else {
      var s', d := s[..|s| - 1], s[|s| - 1] as int;
      var r := Update(c, s');
      UpdateIsRemainder(c, s');
      ShiftPoly(Xor16(r, 256 * d), 8);
      PolyOfXor(r, 256 * d);
      assert Pow2(8) == 256;
      PolyOfShifted(d, 8);
      TimesAdd(8, PolyOf(r), Times(8, PolyOf(d)));
      TimesTimes(8, 8, PolyOf(d));
      CongruentTimes(8, PolyOf(r), Dividend(c, s'));
      CongruentRefl(Times(16, PolyOf(d)));
      CongruentAdd(Times(8, PolyOf(r)), Times(8, Dividend(c, s')), Times(16, PolyOf(d)), Times(16, PolyOf(d)));
      DividendStep(c, s);
      CongruentTrans(PolyOf(Update(c, s)), Add(Times(8, PolyOf(r)), Times(16, PolyOf(d))), Dividend(c, s));
    }
  }

  lemma DividendStep(c: uint16, s: octets)
    requires s != []
    ensures Dividend(c, s) == Add(Times(8, Dividend(c, s[..|s| - 1])), Times(16, PolyOf(s[|s| - 1])))
  {
    var s', d := s[..|s| - 1], s[|s| - 1];
    var a, b := Times(8 * |s'|, PolyOf(c)), Times(16, MessagePoly(s'));
    TimesAdd(8, a, b);
    TimesTimes(8, 8 * |s'|, PolyOf(c));
    TimesTimes(8, 16, MessagePoly(s'));
    MessageStep(s);
    TimesAdd(16, Times(8, MessagePoly(s')), PolyOf(d));
    TimesTimes(16, 8, MessagePoly(s'));
    var x, y, z := Times(8 * |s|, PolyOf(c)), Times(24, MessagePoly(s')), Times(16, PolyOf(d));
    AddAssociative(x, y, z);
  }

  /** And it is the only number below 2^16 that is one. */
  lemma UpdateIsTheRemainder(c: uint16, s: octets, r: uint16)
    ensures Update(c, s) == r <==> Congruent(Dividend(c, s), PolyOf(r))
  {
    UpdateIsRemainder(c, s);
    var u := PolyOf(Update(c, s));
    AddCommutes(Dividend(c, s), u);
    if Congruent(Dividend(c, s), PolyOf(r)) {
      RegisterDegree(r);
      RemainderUnique(Dividend(c, s), u, PolyOf(r));
      PolyOfInjective(Update(c, s), r);
    }
  }

  // ---------------------------------------------------------------------------
  // The all-ones preset
  // ---------------------------------------------------------------------------

  /** 1 + x + ... + x^(n-1) */
  function Ones(n: nat): (r: Poly)
    ensures forall e: nat {:trigger e in r} :: e in r <==> e < n
  {
    if n == 0 then {} else Ones(n - 1) + {n - 1}
  }

  lemma OneMoreOne(n: nat)
    ensures Add({0}, Times(1, Ones(n))) == Ones(n + 1)
  {
    forall e: nat
      ensures e in Add({0}, Times(1, Ones(n))) <==> e in Ones(n + 1)
    {
      assert e in Times(1, Ones(n)) <==> e >= 1 && e - 1 in Ones(n);
    }
  }

  lemma OddPoly(n: nat)
    ensures PolyOf(2 * n + 1) == Add({0}, Times(1, PolyOf(n)))
  {
    Digits(2 * n + 1);
    assert (2 * n + 1) / 2 == n && (2 * n + 1) % 2 == 1;
  }

  predicate IsOnes(v: nat, n: nat) {
    PolyOf(v) == Ones(n)
  }

  lemma OnesStep(half: nat, v: nat, n: nat)
    requires n > 0 && v == 2 * half + 1 && IsOnes(half, n - 1)
    ensures IsOnes(v, n)
  {
    OddPoly(half);
    OneMoreOne(n - 1);
  }

  lemma NoOnes()
    ensures IsOnes(0, 0)
  {
  }

  lemma {:induction false} OnesPoly(v: nat, n: nat)
    requires v + 1 == Pow2(n)
    ensures IsOnes(v, n)
    decreases n
  {
    if n == 0 {
      NoOnes();
    } else {
      OnesPoly(v / 2, n - 1);
      OnesStep(v / 2, v, n);
    }
  }

  lemma PresetPoly(preset: nat)
    requires preset == 0xFFFF
    ensures IsOnes(preset, 16)
  {
    Pow2Sixteen();
    OnesPoly(preset, 16);
  }

  /** The CRC of a message is the remainder by the generator of sixteen ones followed by
      the message, both moved past the check bits: the encoder of section 4.2.1.3 with its
      shift register preset to all ones. */
  lemma ComputeIsEncoder(s: octets, r: uint16)
    ensures var ones: Poly := {0, 1, 2, 3, 4, 5, 6, 7, 8, 9, 10, 11, 12, 13, 14, 15};
            Compute(s) == r <==> Congruent(Add(Times(8 * |s|, ones), Times(16, MessagePoly(s))), PolyOf(r))
  {
    PresetPoly(0xFFFF);
    SixteenOnes(16);
    UpdateIsTheRemainder(0xFFFF, s, r);
  }

  lemma SixteenOnes(n: nat)
    requires n == 16
    ensures Ones(n) == {0, 1, 2, 3, 4, 5, 6, 7, 8, 9, 10, 11, 12, 13, 14, 15}
  {
  }

  /** The CRC of no octets is the preset. */
  lemma ComputeNothing()
    ensures Compute([]) == 0xFFFF
  {
  }
}
