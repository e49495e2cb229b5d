/** What the PDU CRC detects. Two messages of one length leave the same register exactly
    when the generator divides the polynomial of the bits in which they differ; the
    guarantees for odd errors, bursts and double errors follow from that one equivalence. */
module CrcDetection {
  import opened Octets
  import opened Endian
  import opened Gf2
  import opened Crc
  import CrcOrder

  // ---------------------------------------------------------------------------
  // The zero residue
  // ---------------------------------------------------------------------------

  lemma RegisterIsZero(c: uint16, s: octets)
    ensures Update(c, s) == 0 <==> Divisible(Dividend(c, s))
  {
    UpdateIsTheRemainder(c, s, 0);
    assert Add(Dividend(c, s), PolyOf(0)) == Dividend(c, s);
  }

  lemma {:induction false} FromBigEndianConcat(a: octets, b: octets)
    ensures FromBigEndian(a + b) == Pow256(|b|) * FromBigEndian(a) + FromBigEndian(b)
  {
    if b == [] {
      assert a + b == a;
    } else {
      var b' := b[..|b| - 1];
      assert (a + b)[..|a + b| - 1] == a + b';
      FromBigEndianConcat(a, b');
      assert 256 * (Pow256(|b'|) * FromBigEndian(a)) == Pow256(|b|) * FromBigEndian(a);
    }
  }

  lemma WordValue(w: uint16)
    ensures FromBigEndian(BigEndian(w, 2)) == w
  {
    ReadOfWrite(w, 2);
    Pow256Values();
  }

  /** Running the register over a message and two more octets leaves zero exactly
      when those octets are the CRC of the message. */
  lemma Residue(c: uint16, s: octets, w: uint16)
    ensures Update(c, s + BigEndian(w, 2)) == 0 <==> Update(c, s) == w
  {
    var t := s + BigEndian(w, 2);
    FromBigEndianConcat(s, BigEndian(w, 2));
    WordValue(w);
    Pow256Values();
    Pow2Sixteen();
    PolyOfSum(FromBigEndian(s), w, 16);
    TrailedDividend(c, s, t, PolyOf(w));
    RegisterIsZero(c, t);
    var p := Add(Dividend(c, s), PolyOf(w));
    if Divisible(Times(16, p)) {
      CancelPower(16, p);
    }
    if Divisible(p) {
      DivisibleTimes(16, p);
    }
    UpdateIsTheRemainder(c, s, w);
  }

  lemma TrailedDividend(c: uint16, s: octets, t: octets, w: Poly)
    requires |t| == |s| + 2
    requires MessagePoly(t) == Add(Times(16, MessagePoly(s)), w)
    ensures Dividend(c, t) == Times(16, Add(Dividend(c, s), w))
  {
    var a, m := Times(8 * |s|, PolyOf(c)), Times(16, MessagePoly(s));
    TimesAdd(16, m, w);
    TimesAdd(16, a, m);
    TimesAdd(16, Add(a, m), w);
    TimesTimes(16, 8 * |s|, PolyOf(c));
    AddAssociative(Times(16, a), Times(16, m), Times(16, w));
  }

  // ---------------------------------------------------------------------------
  // Bits on the wire
  // ---------------------------------------------------------------------------

  /** The positions at which two messages of the same length differ. */
  function FlippedBits(s: octets, t: octets): set<nat>
    requires |s| == |t|
  {
    set p: nat | p < 8 * |s| && WireBit(s, p) != WireBit(t, p)
  }

  function ErrorPoly(s: octets, t: octets): Poly {
    Add(MessagePoly(s), MessagePoly(t))
  }

  lemma {:induction false} PolyOfBit(n: nat, i: nat)
    ensures i in PolyOf(n) <==> NumberBit(n, i)
    decreases i
  {
    Digits(n);
    if i > 0 {
      PolyOfBit(n / 2, i - 1);
      assert i in PolyOf(n) <==> i - 1 in PolyOf(n / 2);
    }
  }

  /** The coefficient of x^e is bit 8|s| - 1 - e of the message. */
  lemma {:induction false} MessageBit(s: octets, e: nat)
    ensures e in MessagePoly(s) <==> e < 8 * |s| && WireBit(s, 8 * |s| - 1 - e)
  {
    if s != [] {
      var s', d := s[..|s| - 1], s[|s| - 1];
      MessageStep(s);
      OctetDegree(d);
      if e < 8 {
        PolyOfBit(d, e);
        assert (8 * |s| - 1 - e) / 8 == |s| - 1 && (8 * |s| - 1 - e) % 8 == 7 - e;
      } else {
        MessageBit(s', e - 8);
        assert e in MessagePoly(s) <==> e - 8 in MessagePoly(s');
        assert 8 * |s'| - 1 - (e - 8) == 8 * |s| - 1 - e;
      }
    }
  }

  lemma OctetDegree(d: octet)
    ensures DegreeBelow(PolyOf(d), 8)
  {
    assert Pow2(8) == 256;
    PolyOfDegree(d, 8);
  }

  lemma ErrorBit(s: octets, t: octets, e: nat)
    requires |s| == |t|
    ensures e in ErrorPoly(s, t) <==> e < 8 * |s| && 8 * |s| - 1 - e in FlippedBits(s, t)
  {
    MessageBit(s, e);
    MessageBit(t, e);
  }

  /** The error polynomial has one term per flipped bit. */
  lemma ErrorWeight(s: octets, t: octets)
    requires |s| == |t|
    ensures |ErrorPoly(s, t)| == |FlippedBits(s, t)|
  {
    forall e: nat
      ensures e in ErrorPoly(s, t) <==> e < 8 * |s| && 8 * |s| - 1 - e in FlippedBits(s, t)
    {
      ErrorBit(s, t, e);
    }
    MirrorSize(ErrorPoly(s, t), FlippedBits(s, t), 8 * |s|);
  }

  lemma {:induction false} MirrorSize(a: set<nat>, b: set<nat>, n: nat)
    requires forall e: nat :: e in a <==> e < n && n - 1 - e in b
    requires forall p :: p in b ==> p < n
    ensures |a| == |b|
    decreases |a|
  {
    if a == {} {
      forall p: nat
        ensures p !in b
      {
        assert p < n ==> n - 1 - (n - 1 - p) == p && n - 1 - p !in a;
      }
      assert b == {};
    } else {
      var e :| e in a;
      var p := n - 1 - e;
      MirrorSize(a - {e}, b - {p}, n);
    }
  }

  // ---------------------------------------------------------------------------
  // Detection
  // ---------------------------------------------------------------------------

  /** Two messages of one length leave the same register exactly when the generator
      divides their error polynomial, whatever the register started at. */
  lemma UndetectedError(c: uint16, s: octets, t: octets)
    requires |s| == |t|
    ensures Update(c, s) == Update(c, t) <==> Divisible(ErrorPoly(s, t))
  {
    var e, p, q, r := ErrorPoly(s, t), Dividend(c, s), Dividend(c, t), PolyOf(Update(c, t));
    DividendsDiffer(c, s, t);
    UpdateIsTheRemainder(c, s, Update(c, t));
    UpdateIsRemainder(c, t);
    if Divisible(e) {
      DivisibleTimes(16, e);
      CongruentSym(r, q);
      CongruentTrans(p, q, r);
    }
    if Congruent(p, r) {
      CongruentTrans(p, r, q);
      CancelPower(16, e);
    }
  }

  lemma DividendsDiffer(c: uint16, s: octets, t: octets)
    requires |s| == |t|
    ensures Add(Dividend(c, s), Dividend(c, t)) == Times(16, ErrorPoly(s, t))
  {
    var a := Times(8 * |s|, PolyOf(c));
    TimesAdd(16, MessagePoly(s), MessagePoly(t));
    AddInterchange(a, Times(16, MessagePoly(s)), a, Times(16, MessagePoly(t)));
    assert Add(a, a) == {};
  }

  /** The register keeps parity: it ends with an odd number of ones exactly when register
      and message together started with one. */
  lemma ParityKept(c: uint16, s: octets)
    ensures Odd(PolyOf(Update(c, s))) <==> (Odd(PolyOf(c)) != Odd(MessagePoly(s)))
  {
    var u, p := PolyOf(Update(c, s)), Dividend(c, s);
    UpdateIsRemainder(c, s);
    MultipleIsEven(Add(u, p));
    AddParity(u, p);
    AddParity(Times(8 * |s|, PolyOf(c)), Times(16, MessagePoly(s)));
    TimesParity(8 * |s|, PolyOf(c));
    TimesParity(16, MessagePoly(s));
  }

  // ---------------------------------------------------------------------------
  // Linearity
  // ---------------------------------------------------------------------------

  function XorOctet(a: octet, b: octet): octet {
    assert Pow2(8) == 256;
    XorBelow(a, b, 8);
    Xor(a, b)
  }

  /** Octet by octet. */
  function XorOctets(s: octets, t: octets): (r: octets)
    requires |s| == |t|
    ensures |r| == |s|
  {
    if s == [] then []
    else XorOctets(s[..|s| - 1], t[..|t| - 1]) + [XorOctet(s[|s| - 1], t[|t| - 1])]
  }

  lemma {:induction false} MessageOfXor(s: octets, t: octets)
    requires |s| == |t|
    ensures MessagePoly(XorOctets(s, t)) == ErrorPoly(s, t)
  {
    if s != [] {
      var s', t' := s[..|s| - 1], t[..|t| - 1];
      var a: octet, b: octet := s[|s| - 1], t[|t| - 1];
      MessageOfXor(s', t');
      assert XorOctets(s, t)[..|s| - 1] == XorOctets(s', t');
      MessageStep(XorOctets(s, t));
      PolyOfXor(a, b);
      MessageStep(s);
      MessageStep(t);
      TimesAdd(8, MessagePoly(s'), MessagePoly(t'));
      AddInterchange(Times(8, MessagePoly(s')), PolyOf(a), Times(8, MessagePoly(t')), PolyOf(b));
    }
  }

  lemma DividendOfXor(c: uint16, d: uint16, s: octets, t: octets)
    requires |s| == |t|
    ensures Dividend(Xor16(c, d), XorOctets(s, t)) == Add(Dividend(c, s), Dividend(d, t))
  {
    var n := 8 * |s|;
    PolyOfXor(c, d);
    MessageOfXor(s, t);
    TimesAdd(n, PolyOf(c), PolyOf(d));
    TimesAdd(16, MessagePoly(s), MessagePoly(t));
    AddInterchange(Times(n, PolyOf(c)), Times(n, PolyOf(d)), Times(16, MessagePoly(s)), Times(16, MessagePoly(t)));
  }

  /** The register is linear: the exclusive or of two start values and of two messages of
      one length leaves the exclusive or of their registers. */
  lemma Linear(c: uint16, d: uint16, s: octets, t: octets)
    requires |s| == |t|
    ensures Update(Xor16(c, d), XorOctets(s, t)) == Xor16(Update(c, s), Update(d, t))
  {
    var u, v := PolyOf(Update(c, s)), PolyOf(Update(d, t));
    UpdateIsRemainder(c, s);
    UpdateIsRemainder(d, t);
    CongruentAdd(u, Dividend(c, s), v, Dividend(d, t));
    DividendOfXor(c, d, s, t);
    PolyOfXor(Update(c, s), Update(d, t));
    CongruentSym(Add(u, v), Add(Dividend(c, s), Dividend(d, t)));
    UpdateIsTheRemainder(Xor16(c, d), XorOctets(s, t), Xor16(Update(c, s), Update(d, t)));
  }

  // ---------------------------------------------------------------------------
  // Guarantees
  // ---------------------------------------------------------------------------

  /** Any odd number of flipped bits changes the register. */
  lemma OddErrorDetected(c: uint16, s: octets, t: octets)
    requires |s| == |t|
    requires |FlippedBits(s, t)| % 2 == 1
    ensures Update(c, s) != Update(c, t)
  {
    UndetectedError(c, s, t);
    ErrorWeight(s, t);
    if Divisible(ErrorPoly(s, t)) {
      MultipleIsEven(ErrorPoly(s, t));
    }
  }

  /** A non-zero polynomial whose terms lie within sixteen consecutive exponents. */
  predicate Narrow(e: Poly, k: nat) {
    e != {} && forall i :: i in e ==> k <= i < k + 16
  }

  /** A non-zero polynomial of degree below 16, moved up any number of places, is no
      multiple of the generator. */
  lemma NarrowIndivisible(low: Poly, k: nat)
    requires Narrow(low, 0)
    ensures !Divisible(Times(k, low))
  {
    if Divisible(Times(k, low)) {
      CancelPower(k, low);
      SmallMultipleIsZero(low);
    }
  }

  lemma {:induction false} FactorNarrow(e: Poly, k: nat) returns (low: Poly)
    requires Narrow(e, k)
    ensures e == Times(k, low) && Narrow(low, 0)
    decreases k
  {
    if k == 0 {
      low := e;
      TimesNothing(e);
    } else {
      var r := DividedByX(e);
      NarrowDivided(e, r, k);
      low := FactorNarrow(r, k - 1);
      TimesTimes(1, k - 1, low);
    }
  }

  lemma TimesNothing(e: Poly)
    ensures Times(0, e) == e
  {
  }

  lemma NarrowDivided(e: Poly, r: Poly, k: nat)
    requires Narrow(e, k) && k > 0 && e == Times(1, r)
    ensures Narrow(r, k - 1)
  {
    forall i: nat | i in r
      ensures k - 1 <= i < k - 1 + 16
    {
      assert i + 1 in e;
    }
  }

  lemma NarrowError(s: octets, t: octets, first: nat) returns (k: nat)
    requires |s| == |t| && FlippedBits(s, t) != {}
    requires forall p :: p in FlippedBits(s, t) ==> first <= p < first + 16
    ensures Narrow(ErrorPoly(s, t), k)
  {
    var n := 8 * |s|;
    k := if n >= first + 16 then n - first - 16 else 0;
    forall i: nat
      ensures i in ErrorPoly(s, t) ==> k <= i < k + 16
    {
      ErrorBit(s, t, i);
    }
    ErrorWeight(s, t);
  }

  /** A non-zero error confined to sixteen consecutive bits changes the register. */
  lemma BurstDetected(c: uint16, s: octets, t: octets, first: nat)
    requires |s| == |t|
    requires FlippedBits(s, t) != {}
    requires forall p :: p in FlippedBits(s, t) ==> first <= p < first + 16
    ensures Update(c, s) != Update(c, t)
  {
    var k := NarrowError(s, t, first);
    var low := FactorNarrow(ErrorPoly(s, t), k);
    NarrowIndivisible(low, k);
    UndetectedError(c, s, t);
  }

  lemma TwoTerms(n: nat, i: nat, j: nat, e: Poly)
    requires i < j < n
    requires forall x: nat :: x in e <==> x < n && (n - 1 - x == i || n - 1 - x == j)
    ensures e == Times(n - 1 - j, Add({j - i}, {0}))
  {
    forall x: nat
      ensures x in e <==> x in Times(n - 1 - j, Add({j - i}, {0}))
    {
    }
  }

  lemma PairPoly(s: octets, t: octets, i: nat, j: nat)
    requires |s| == |t| && i < j < 8 * |s| && FlippedBits(s, t) == {i, j}
    ensures ErrorPoly(s, t) == Times(8 * |s| - 1 - j, Add({j - i}, {0}))
  {
    var n := 8 * |s|;
    forall x: nat
      ensures x in ErrorPoly(s, t) <==> x < n && (n - 1 - x == i || n - 1 - x == j)
    {
      ErrorBit(s, t, x);
    }
    TwoTerms(n, i, j, ErrorPoly(s, t));
  }

  lemma PowerCancelled(k: nat, p: Poly)
    ensures Divisible(Times(k, p)) <==> Divisible(p)
  {
    if Divisible(Times(k, p)) {
      CancelPower(k, p);
    }
    if Divisible(p) {
      DivisibleTimes(k, p);
    }
  }

  lemma FlippedInside(s: octets, t: octets, p: nat)
    requires |s| == |t| && p in FlippedBits(s, t)
    ensures p < 8 * |s|
  {
  }

  /** Where a pair of flipped bits stands does not matter, only how far apart they are. */
  lemma PairDivisible(s: octets, t: octets, i: nat, j: nat)
    requires |s| == |t| && i < j && FlippedBits(s, t) == {i, j}
    ensures Divisible(ErrorPoly(s, t)) <==> CrcOrder.IsOne(j - i)
  {
    FlippedInside(s, t, j);
    PairPoly(s, t, i, j);
    PowerCancelled(8 * |s| - 1 - j, Add({j - i}, {0}));
  }

  /** Two flipped bits leave the register alone exactly when their distance is a multiple
      of 32767, the order of x modulo the generator. */
  lemma DoubleError(c: uint16, s: octets, t: octets, i: nat, j: nat)
    requires |s| == |t|
    requires i < j && FlippedBits(s, t) == {i, j}
    ensures Update(c, s) == Update(c, t) <==> (j - i) % 32767 == 0
  {
    UndetectedError(c, s, t);
    PairDivisible(s, t, i, j);
    CrcOrder.OrderOfX(j - i);
  }
}
