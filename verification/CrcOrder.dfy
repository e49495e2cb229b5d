/** The order of x modulo the generator is 32767. The few powers of x the argument
    needs are reached by repeated squaring; here residues are 32-bit words, which
    the verifier can evaluate. */
module CrcOrder {
  import opened Gf2
  import opened Endian

  type word = bv32

  /** x^16 + x^12 + x^5 + 1 */
  const GENERATOR: word := 0x11021

  /** The polynomial whose coefficients are the bits of `w`. */
  function PolyOfWord(w: word): Poly
    decreases w
  {
    if w == 0 then {} else Add(Unit(w & 1), Times(1, PolyOfWord(w >> 1)))
  }

  function Unit(b: word): Poly {
    if b == 1 then {0} else {}
  }

  lemma WordDigits(w: word)
    ensures PolyOfWord(w) == Add(Unit(w & 1), Times(1, PolyOfWord(w >> 1)))
  {
    if w == 0 {
      assert w & 1 == 0 && w >> 1 == 0;
      assert Add({}, Times(1, {})) == {};
    }
  }

  lemma XorBits(a: word, b: word)
    ensures (a ^ b) >> 1 == (a >> 1) ^ (b >> 1)
    ensures (a ^ b) & 1 == (a & 1) ^ (b & 1)
  {
  }

  lemma LowBit(a: word)
    ensures a & 1 == 0 || a & 1 == 1
  {
  }

  lemma XorUnit(a: word, b: word)
    requires a == 0 || a == 1
    requires b == 0 || b == 1
    ensures Unit(a ^ b) == Add(Unit(a), Unit(b))
  {
  }

  lemma XorDigits(a: word, b: word)
    ensures PolyOfWord(a ^ b) == Add(Add(Unit(a & 1), Unit(b & 1)), Times(1, PolyOfWord((a >> 1) ^ (b >> 1))))
  {
    XorBits(a, b);
    LowBit(a);
    LowBit(b);
    XorUnit(a & 1, b & 1);
    WordDigits(a ^ b);
  }

  lemma XorZero(a: word, b: word)
    ensures a == 0 ==> a ^ b == b
    ensures b == 0 ==> a ^ b == a
    ensures a != 0 ==> a >> 1 < a
  {
  }

  lemma Combine(ua: Poly, ub: Poly, p: Poly, q: Poly)
    ensures Add(Add(ua, ub), Times(1, Add(p, q))) == Add(Add(ua, Times(1, p)), Add(ub, Times(1, q)))
  {
    TimesAdd(1, p, q);
    AddInterchange(ua, ub, Times(1, p), Times(1, q));
  }

  lemma XorStep(a: word, b: word)
    requires PolyOfWord((a >> 1) ^ (b >> 1)) == Add(PolyOfWord(a >> 1), PolyOfWord(b >> 1))
    ensures PolyOfWord(a ^ b) == Add(PolyOfWord(a), PolyOfWord(b))
  {
    XorDigits(a, b);
    WordDigits(a);
    WordDigits(b);
    Combine(Unit(a & 1), Unit(b & 1), PolyOfWord(a >> 1), PolyOfWord(b >> 1));
  }

  lemma {:induction false} PolyOfWordXor(a: word, b: word)
    ensures PolyOfWord(a ^ b) == Add(PolyOfWord(a), PolyOfWord(b))
    decreases a
  {
    if a == 0 {
      XorZero(a, b);
      AddZero(PolyOfWord(b));
    } else {
      XorZero(a, b);
      PolyOfWordXor(a >> 1, b >> 1);
      XorStep(a, b);
    }
  }

  lemma DoubleBits(w: word)
    requires w < 0x1_0000
    ensures (w << 1) & 1 == 0 && (w << 1) >> 1 == w
  {
  }

  lemma PolyOfWordDouble(w: word)
    requires w < 0x1_0000
    ensures PolyOfWord(w << 1) == Times(1, PolyOfWord(w))
  {
    DoubleBits(w);
    WordDigits(w << 1);
    AddZero(Times(1, PolyOfWord(w)));
  }

  lemma AddZero(p: Poly)
    ensures Add({}, p) == p
  {
  }

  lemma NextBit(w: word, v: word, k: nat)
    requires v < 0x1_0000 && w == v << 1 && PolyOfWord(v) == {k}
    ensures PolyOfWord(w) == {k + 1}
  {
    PolyOfWordDouble(v);
  }

  lemma BitZero(w: word)
    requires w == 1
    ensures PolyOfWord(w) == {0}
  {
    WordDigits(w);
    assert w >> 1 == 0 && w & 1 == 1;
    assert Add({0}, Times(1, {})) == {0};
  }

  lemma SingleBits()
    ensures PolyOfWord(1) == {0} && PolyOfWord(2) == {1} && PolyOfWord(0x20) == {5} && PolyOfWord(0x100) == {8}
    ensures PolyOfWord(0x200) == {9} && PolyOfWord(0x1000) == {12} && PolyOfWord(0x2000) == {13}
    ensures PolyOfWord(0x1_0000) == {16}
  {
    BitZero(1);
    NextBit(2, 1, 0);
    NextBit(4, 2, 1);
    NextBit(8, 4, 2);
    NextBit(0x10, 8, 3);
    NextBit(0x20, 0x10, 4);
    NextBit(0x40, 0x20, 5);
    NextBit(0x80, 0x40, 6);
    NextBit(0x100, 0x80, 7);
    NextBit(0x200, 0x100, 8);
    NextBit(0x400, 0x200, 9);
    NextBit(0x800, 0x400, 10);
    NextBit(0x1000, 0x800, 11);
    NextBit(0x2000, 0x1000, 12);
    NextBit(0x4000, 0x2000, 13);
    NextBit(0x8000, 0x4000, 14);
    NextBit(0x1_0000, 0x8000, 15);
  }

  lemma SumWord(w: word, a: word, b: word, p: Poly, q: Poly)
    requires w == a ^ b && PolyOfWord(a) == p && PolyOfWord(b) == q
    ensures PolyOfWord(w) == Add(p, q)
  {
    PolyOfWordXor(a, b);
  }

  lemma GeneratorWord()
    ensures PolyOfWord(GENERATOR) == G
  {
    SingleBits();
    SumWord(0x21, 0x20, 1, {5}, {0});
    SumWord(0x1021, 0x1000, 0x21, {12}, Add({5}, {0}));
    SumWord(GENERATOR, 0x1_0000, 0x1021, {16}, Add({12}, Add({5}, {0})));
    FourTerms();
  }

  lemma FourTerms()
    ensures Add({16}, Add({12}, Add({5}, {0}))) == G
  {
  }

  // ---------------------------------------------------------------------------
  // Residues of powers of x
  // ---------------------------------------------------------------------------

  /** x w mod G */
  function TimesX(w: word): word {
    if w & 0x8000 != 0 then (w << 1) ^ GENERATOR else w << 1
  }

  /** One step of Horner's rule for w^2: square the part seen so far and append a bit. */
  function Horner(acc: word, v: word): word {
    TimesX(TimesX(acc)) ^ (v & 1)
  }

  function HornerNibble(acc: word, v: word): word {
    Horner(Horner(Horner(Horner(acc, v >> 3), v >> 2), v >> 1), v)
  }

  /** w^2 mod G, for `w` of sixteen bits. */
  function Square(w: word): word {
    HornerNibble(HornerNibble(HornerNibble(HornerNibble(0, w >> 12), w >> 8), w >> 4), w)
  }

  /** x^k mod G is `w`. */
  ghost predicate Power(k: nat, w: word) {
    w < 0x1_0000 && Congruent({k}, PolyOfWord(w))
  }

  lemma SmallWords(w: word, v: word)
    requires w < 0x1_0000
    ensures TimesX(w) < 0x1_0000 && w ^ (v & 1) < 0x1_0000
  {
  }

  lemma AddGenerator(x: word, v: word)
    requires x == v ^ GENERATOR
    ensures Congruent(PolyOfWord(v), PolyOfWord(x))
  {
    PolyOfWordXor(v, GENERATOR);
    GeneratorWord();
    GIsMultiple();
    AddTwice(PolyOfWord(v), G);
  }

  lemma AddTwice(p: Poly, q: Poly)
    ensures Add(p, Add(p, q)) == q
  {
  }

  lemma TimesXCongruent(w: word)
    requires w < 0x1_0000
    ensures Congruent(Times(1, PolyOfWord(w)), PolyOfWord(TimesX(w)))
  {
    PolyOfWordDouble(w);
    if TimesX(w) == w << 1 {
      CongruentRefl(PolyOfWord(w << 1));
    } else {
      AddGenerator(TimesX(w), w << 1);
    }
  }

  lemma TimesXTwice(p: Poly, w: word)
    requires w < 0x1_0000 && Congruent(p, PolyOfWord(w))
    ensures TimesX(TimesX(w)) < 0x1_0000
    ensures Congruent(Times(2, p), PolyOfWord(TimesX(TimesX(w))))
  {
    var v := TimesX(w);
    SmallWords(w, 0);
    SmallWords(v, 0);
    TimesXCongruent(w);
    TimesXCongruent(v);
    CongruentTimes(1, p, PolyOfWord(w));
    CongruentTrans(Times(1, p), Times(1, PolyOfWord(w)), PolyOfWord(v));
    CongruentTimes(1, Times(1, p), PolyOfWord(v));
    TimesTimes(1, 1, p);
    CongruentTrans(Times(2, p), Times(1, PolyOfWord(v)), PolyOfWord(TimesX(v)));
  }

  lemma ZeroPoly(b: word)
    requires b == 0
    ensures PolyOfWord(b) == {}
  {
  }

  lemma UnitPoly(b: word)
    requires b == 0 || b == 1
    ensures PolyOfWord(b) == Unit(b)
  {
    if b == 1 {
      BitZero(b);
    } else {
      ZeroPoly(b);
    }
  }

  lemma SquaredUnit(b: word)
    ensures Squared(Unit(b)) == Unit(b)
  {
  }

  lemma SquaredDigits(v: word, u: word)
    requires u == v >> 1
    ensures Squared(PolyOfWord(v)) == Add(Unit(v & 1), Times(2, Squared(PolyOfWord(u))))
  {
    WordDigits(v);
    LowBit(v);
    SquaredUnit(v & 1);
    SquaredAdd(Unit(v & 1), Times(1, PolyOfWord(u)));
    SquaredTimes(1, PolyOfWord(u));
  }

  lemma AppendBit(t: word, b: word, q: Poly)
    requires b == 0 || b == 1
    requires Congruent(q, PolyOfWord(t))
    ensures Congruent(Add(Unit(b), q), PolyOfWord(t ^ b))
  {
    UnitPoly(b);
    PolyOfWordXor(t, b);
    CongruentRefl(Unit(b));
    CongruentAdd(q, PolyOfWord(t), Unit(b), Unit(b));
    AddCommutes(Unit(b), q);
  }

  /** `acc` is the square of the polynomial `p`. */
  ghost predicate IsSquare(p: Poly, acc: word) {
    acc < 0x1_0000 && Congruent(Squared(p), PolyOfWord(acc))
  }

  lemma HornerAppend(t: word, b: word, h: word, p: Poly, q: Poly)
    requires b == 0 || b == 1
    requires t < 0x1_0000 && Congruent(Times(2, Squared(p)), PolyOfWord(t))
    requires Squared(q) == Add(Unit(b), Times(2, Squared(p))) && h == t ^ b
    ensures IsSquare(q, h)
  {
    AppendBit(t, b, Times(2, Squared(p)));
    assert t ^ b < 0x1_0000;
  }

  lemma HornerStep(acc: word, v: word, p: Poly, q: Poly)
    requires IsSquare(p, acc) && Squared(q) == Add(Unit(v & 1), Times(2, Squared(p)))
    ensures IsSquare(q, Horner(acc, v))
  {
    TimesXTwice(Squared(p), acc);
    LowBit(v);
    HornerAppend(TimesX(TimesX(acc)), v & 1, Horner(acc, v), p, q);
  }

  lemma HornerSteps(acc: word, v: word, u: word)
    requires u == v >> 4 && IsSquare(PolyOfWord(u), acc)
    ensures IsSquare(PolyOfWord(v), HornerNibble(acc, v))
  {
    var p1, p2, p3 := PolyOfWord(v >> 1), PolyOfWord(v >> 2), PolyOfWord(v >> 3);
    SquaredDigits(v, v >> 1);
    DigitAt1(v);
    DigitAt2(v);
    DigitAt3(v, u);
    HornerStep(acc, v >> 3, PolyOfWord(u), p3);
    HornerStep(Horner(acc, v >> 3), v >> 2, p3, p2);
    HornerStep(Horner(Horner(acc, v >> 3), v >> 2), v >> 1, p2, p1);
    HornerStep(Horner(Horner(Horner(acc, v >> 3), v >> 2), v >> 1), v, p1, PolyOfWord(v));
  }

  lemma DigitAt1(v: word)
    ensures Squared(PolyOfWord(v >> 1)) == Add(Unit((v >> 1) & 1), Times(2, Squared(PolyOfWord(v >> 2))))
  {
    SquaredDigits(v >> 1, v >> 2);
  }

  lemma DigitAt2(v: word)
    ensures Squared(PolyOfWord(v >> 2)) == Add(Unit((v >> 2) & 1), Times(2, Squared(PolyOfWord(v >> 3))))
  {
    SquaredDigits(v >> 2, v >> 3);
  }

  lemma DigitAt3(v: word, u: word)
    requires u == v >> 4
    ensures Squared(PolyOfWord(v >> 3)) == Add(Unit((v >> 3) & 1), Times(2, Squared(PolyOfWord(u))))
  {
    SquaredDigits(v >> 3, u);
  }

  lemma ZeroSquare()
    ensures IsSquare(PolyOfWord(0), 0)
  {
    SquaredUnit(0);
    CongruentRefl({});
  }

  lemma SquareByNibbles(w: word, w4: word, w8: word, w12: word)
    requires w12 >> 4 == 0 && w8 >> 4 == w12 && w4 >> 4 == w8 && w >> 4 == w4
    ensures IsSquare(PolyOfWord(w), HornerNibble(HornerNibble(HornerNibble(HornerNibble(0, w12), w8), w4), w))
  {
    ZeroSquare();
    HornerSteps(0, w12, 0);
    HornerSteps(HornerNibble(0, w12), w8, w12);
    HornerSteps(HornerNibble(HornerNibble(0, w12), w8), w4, w8);
    HornerSteps(HornerNibble(HornerNibble(HornerNibble(0, w12), w8), w4), w, w4);
  }

  lemma SquareCongruent(w: word)
    requires w < 0x1_0000
    ensures IsSquare(PolyOfWord(w), Square(w))
  {
    SquareByNibbles(w, w >> 4, w >> 8, w >> 12);
  }

  lemma StartPower(k: nat, w: word)
    requires w < 0x1_0000 && PolyOfWord(w) == {k}
    ensures Power(k, w)
  {
    CongruentRefl({k});
  }

  lemma Double(k: nat, w: word)
    requires Power(k, w)
    ensures Power(2 * k, Square(w))
  {
    SquaredDivisible(Add({k}, PolyOfWord(w)));
    SquaredAdd({k}, PolyOfWord(w));
    assert Squared({k}) == {2 * k};
    SquareCongruent(w);
    CongruentTrans({2 * k}, Squared(PolyOfWord(w)), PolyOfWord(Square(w)));
  }

  lemma DoubleNext(k: nat, w: word)
    requires Power(k, w)
    ensures Power(2 * k + 1, TimesX(Square(w)))
  {
    var v := Square(w);
    Double(k, w);
    SmallWords(v, 0);
    CongruentTimes(1, {2 * k}, PolyOfWord(v));
    assert Times(1, {2 * k}) == {2 * k + 1};
    TimesXCongruent(v);
    CongruentTrans({2 * k + 1}, Times(1, PolyOfWord(v)), PolyOfWord(TimesX(v)));
  }

  lemma Power217()
    ensures Power(217, 0x48E3)
  {
    SingleBits();
    StartPower(13, 0x2000);
    var w: word := 0x2000;
    DoubleNext(13, w);
    w := TimesX(Square(w));
    Double(27, w);
    w := Square(w);
    Double(54, w);
    w := Square(w);
    DoubleNext(108, w);
    w := TimesX(Square(w));
  }

  lemma Power1057()
    ensures Power(1057, 0xF2AF)
  {
    SingleBits();
    StartPower(8, 0x100);
    var w: word := 0x100;
    Double(8, w);
    w := Square(w);
    DoubleNext(16, w);
    w := TimesX(Square(w));
    Double(33, w);
    w := Square(w);
    Double(66, w);
    w := Square(w);
    Double(132, w);
    w := Square(w);
    Double(264, w);
    w := Square(w);
    DoubleNext(528, w);
    w := TimesX(Square(w));
  }

  lemma Power4681()
    ensures Power(4681, 0x2C42)
  {
    SingleBits();
    StartPower(9, 0x200);
    var w: word := 0x200;
    Double(9, w);
    w := Square(w);
    Double(18, w);
    w := Square(w);
    DoubleNext(36, w);
    w := TimesX(Square(w));
    Double(73, w);
    w := Square(w);
    Double(146, w);
    w := Square(w);
    DoubleNext(292, w);
    w := TimesX(Square(w));
    Double(585, w);
    w := Square(w);
    Double(1170, w);
    w := Square(w);
    DoubleNext(2340, w);
    w := TimesX(Square(w));
  }

  lemma Power32768()
    ensures Power(32768, 2)
  {
    SingleBits();
    StartPower(8, 0x100);
    var w: word := 0x100;
    Double(8, w);
    w := Square(w);
    Double(16, w);
    w := Square(w);
    Double(32, w);
    w := Square(w);
    Double(64, w);
    w := Square(w);
    Double(128, w);
    w := Square(w);
    Double(256, w);
    w := Square(w);
    Double(512, w);
    w := Square(w);
    Double(1024, w);
    w := Square(w);
    Double(2048, w);
    w := Square(w);
    Double(4096, w);
    w := Square(w);
    Double(8192, w);
    w := Square(w);
    Double(16384, w);
    w := Square(w);
  }

  // ---------------------------------------------------------------------------
  // Small residues are reduced
  // ---------------------------------------------------------------------------

  /** `w` has at most `n` significant bits. */
  predicate Fits(w: word, n: nat) {
    if n == 0 then w == 0 else Fits(w >> 1, n - 1)
  }

  lemma {:induction false} WordDegree(w: word, n: nat)
    requires Fits(w, n)
    ensures DegreeBelow(PolyOfWord(w), n)
  {
    if n == 0 {
      ZeroPoly(w);
    } else {
      WordDegree(w >> 1, n - 1);
      WordDigits(w);
    }
  }

  lemma FitsNibble(w: word, u: word, n: nat)
    requires u == w >> 4 && Fits(u, n)
    ensures Fits(w, n + 4)
  {
    assert u == (((w >> 1) >> 1) >> 1) >> 1;
    assert Fits((((w >> 1) >> 1) >> 1), n + 1);
    assert Fits((w >> 1) >> 1, n + 2);
    assert Fits(w >> 1, n + 3);
  }

  lemma SmallDegree(w: word)
    requires w < 0x1_0000
    ensures DegreeBelow(PolyOfWord(w), 16)
  {
    FitsNibble(w >> 12, 0, 0);
    FitsNibble(w >> 8, w >> 12, 4);
    FitsNibble(w >> 4, w >> 8, 8);
    FitsNibble(w, w >> 4, 12);
    WordDegree(w, 16);
  }

  lemma HasX(w: word)
    requires w & 2 != 0
    ensures 1 in PolyOfWord(w)
  {
    assert (w >> 1) & 1 == 1;
    WordDigits(w);
    WordDigits(w >> 1);
    assert 0 in PolyOfWord(w >> 1);
  }

  // ---------------------------------------------------------------------------
  // The exponents d with x^d = 1
  // ---------------------------------------------------------------------------

  ghost predicate IsOne(d: nat) {
    Congruent({d}, {0})
  }

  lemma NotOne(k: nat, w: word)
    requires Power(k, w) && w & 2 != 0
    ensures !IsOne(k)
  {
    if IsOne(k) {
      CongruentSym({k}, {0});
      CongruentTrans({0}, {k}, PolyOfWord(w));
      SmallDegree(w);
      SmallMultipleIsZero(Add({0}, PolyOfWord(w)));
      HasX(w);
    }
  }

  lemma ThreeNotOne()
    ensures !IsOne(217) && !IsOne(1057) && !IsOne(4681)
  {
    Power217();
    Power1057();
    Power4681();
    NotOne(217, 0x48E3);
    NotOne(1057, 0xF2AF);
    NotOne(4681, 0x2C42);
  }

  lemma TimesSingle(k: nat, e: nat)
    ensures Times(k, {e}) == {k + e}
  {
  }

  lemma OneAt32767()
    ensures IsOne(32767)
  {
    Power32768();
    SingleBits();
    TimesSingle(1, 32767);
    TimesSingle(1, 0);
    TimesAdd(1, {32767}, {0});
    CancelX(Add({32767}, {0}));
  }

  lemma TimesPair(a: nat, e: nat)
    ensures Times(a, Add({e}, {0})) == Add({a + e}, {a})
  {
    TimesAdd(a, {e}, {0});
    TimesSingle(a, e);
    TimesSingle(a, 0);
  }

  lemma OneCancel(a: nat, e: nat)
    requires IsOne(a) && IsOne(a + e)
    ensures IsOne(e)
  {
    CongruentSym({a}, {0});
    CongruentTrans({a + e}, {0}, {a});
    TimesPair(a, e);
    CancelPower(a, Add({e}, {0}));
  }

  lemma OneSubtract(a: nat, b: nat)
    requires a <= b && IsOne(a) && IsOne(b)
    ensures IsOne(b - a)
  {
    OneCancel(a, b - a);
  }

  lemma OneAdd(a: nat, b: nat)
    requires IsOne(a) && IsOne(b)
    ensures IsOne(a + b)
  {
    CongruentTimes(a, {b}, {0});
    TimesSingle(a, b);
    TimesSingle(a, 0);
    CongruentTrans({a + b}, {a}, {0});
  }

  lemma {:induction false} OneMultiple(d: nat, k: nat)
    requires IsOne(d)
    ensures IsOne(d * k)
  {
    if k == 0 {
      CongruentRefl({0});
    } else {
      OneMultiple(d, k - 1);
      OneAdd(d * (k - 1), d);
      assert d * (k - 1) + d == d * k;
    }
  }

  /** The exponents are closed under greatest common divisors. */
  lemma {:induction false} OneGcd(a: nat, b: nat) returns (g: nat, h: nat, k: nat)
    requires 0 < a && 0 < b && IsOne(a) && IsOne(b)
    ensures 0 < g && IsOne(g) && a == g * h && b == g * k
    decreases a + b
  {
    if a == b {
      g, h, k := a, 1, 1;
    } else if a < b {
      OneSubtract(a, b);
      g, h, k := OneGcd(a, b - a);
      assert g * h + g * k == g * (h + k);
      k := h + k;
    } else {
      OneSubtract(b, a);
      g, h, k := OneGcd(a - b, b);
      assert g * h + g * k == g * (h + k);
      h := h + k;
    }
  }

  /** How many of 2 to n divide 32767, beside 7, 31 and 151. */
  function OtherDivisors(n: nat): nat {
    if n < 2 then 0
    else OtherDivisors(n - 1) + (if 32767 % n != 0 || n == 7 || n == 31 || n == 151 then 0 else 1)
  }

  lemma {:induction false} NoOther(n: nat, s: nat)
    requires OtherDivisors(n) == 0 && 2 <= s <= n && 32767 % s == 0
    ensures s in {7, 31, 151}
  {
    if s < n {
      NoOther(n - 1, s);
    }
  }

  lemma NoOtherTo60()
    ensures OtherDivisors(60) == 0
  {
    assert OtherDivisors(10) == 0;
    assert OtherDivisors(20) == 0;
    assert OtherDivisors(30) == 0;
    assert OtherDivisors(40) == 0;
    assert OtherDivisors(50) == 0;
  }

  lemma NoOtherTo120()
    ensures OtherDivisors(120) == 0
  {
    NoOtherTo60();
    assert OtherDivisors(70) == 0;
    assert OtherDivisors(80) == 0;
    assert OtherDivisors(90) == 0;
    assert OtherDivisors(100) == 0;
    assert OtherDivisors(110) == 0;
  }

  lemma NoOtherTo181()
    ensures OtherDivisors(181) == 0
  {
    NoOtherTo120();
    assert OtherDivisors(130) == 0;
    assert OtherDivisors(140) == 0;
    assert OtherDivisors(150) == 0;
    assert OtherDivisors(160) == 0;
    assert OtherDivisors(170) == 0;
    assert OtherDivisors(180) == 0;
  }

  /** A proper divisor of 32767 divides 217, 1057 or 4681. */
  lemma ProperDivisor(g: nat, h: nat) returns (k: nat)
    requires g * h == 32767 && h >= 2
    ensures g * k == 217 || g * k == 1057 || g * k == 4681
  {
    NoOtherTo181();
    if g >= 182 && h >= 182 {
      ProductGrows(g, h);
    } else if h < 182 {
      assert 32767 % h == 0 by { Exact(g, h); }
      NoOther(181, h);
      k := 1;
    } else if g == 1 {
      k := 217;
    } else {
      assert g > 0;
      assert 32767 % g == 0 by { Exact(h, g); }
      NoOther(181, g);
      k := if g == 7 then 31 else 7;
    }
  }

  lemma ProductGrows(g: nat, h: nat)
    requires g >= 182 && h >= 182
    ensures g * h >= 182 * 182
  {
    assert g * h >= 182 * h;
  }

  lemma Exact(a: nat, b: nat)
    requires a * b == 32767 && b > 0
    ensures 32767 % b == 0
  {
    ModUnique(32767, b, a, 0);
  }

  /** x^d is 1 modulo the generator exactly when 32767 divides d. */
  lemma OrderOfX(d: nat)
    ensures IsOne(d) <==> d % 32767 == 0
  {
    OneAt32767();
    if d % 32767 == 0 {
      OneMultiple(32767, d / 32767);
    } else if IsOne(d) {
      var r := d % 32767;
      OneMultiple(32767, d / 32767);
      OneSubtract(32767 * (d / 32767), d);
      var g, h, k := OneGcd(r, 32767);
      ThreeNotOne();
      SmallerDivisor(g, h, r, k);
      var m := ProperDivisor(g, k);
      OneMultiple(g, m);
    }
  }

  lemma SmallerDivisor(g: nat, h: nat, r: nat, k: nat)
    requires 0 < r < 32767 && r == g * h && g * k == 32767
    ensures k >= 2
  {
    assert h >= 1;
    MulAtLeast(g, h);
  }

  lemma MulAtLeast(g: nat, h: nat)
    requires h >= 1
    ensures g * h >= g
  {
  }
}
