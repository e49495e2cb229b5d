/** Polynomials over GF(2), and divisibility by the CRC generator
    x^16 + x^12 + x^5 + 1. A polynomial is the set of exponents whose coefficient
    is one, so equal polynomials are equal sets and addition is symmetric
    difference. */
module Gf2 {

  type Poly = set<nat>

  /** P + Q */
  function Add(p: Poly, q: Poly): (r: Poly)
    ensures forall e {:trigger e in r} :: e in r <==> (e in p) != (e in q)
  {
    (p - q) + (q - p)
  }

  /** x^k P */
  function Times(k: nat, p: Poly): (r: Poly)
    ensures forall e {:trigger e in r} :: e in r <==> e >= k && e - k in p
  {
    set e | e in p :: e + k
  }

  /** P^2: over GF(2) squaring doubles every exponent. */
  function Squared(p: Poly): (r: Poly)
    ensures forall e: nat {:trigger e in r} :: e in r <==> e % 2 == 0 && e / 2 in p
  {
    set e | e in p :: 2 * e
  }

  /** (x^16 + x^12 + x^5 + 1) Q */
  function TimesG(q: Poly): Poly {
    Add(Add(Times(16, q), Times(12, q)), Add(Times(5, q), q))
  }

  const G: Poly := {16, 12, 5, 0}

  ghost predicate Divisible(p: Poly) {
    exists q: Poly :: p == TimesG(q)
  }

  ghost predicate Congruent(p: Poly, q: Poly) {
    Divisible(Add(p, q))
  }

  predicate DegreeBelow(p: Poly, n: nat) {
    forall e :: e in p ==> e < n
  }

  // ---------------------------------------------------------------------------
  // The multiples of G form an ideal
  // ---------------------------------------------------------------------------

  lemma TimesAdd(k: nat, p: Poly, q: Poly)
    ensures Times(k, Add(p, q)) == Add(Times(k, p), Times(k, q))
  {
  }

  lemma TimesTimes(j: nat, k: nat, p: Poly)
    ensures Times(j, Times(k, p)) == Times(j + k, p)
  {
  }

  lemma TimesInjective(k: nat, p: Poly, q: Poly)
    requires Times(k, p) == Times(k, q)
    ensures p == q
  {
    forall e: nat
      ensures e in p <==> e in q
    {
      assert e in p <==> e + k in Times(k, p);
      assert e in q <==> e + k in Times(k, q);
    }
  }

  lemma GIsMultiple()
    ensures Divisible(G) && Divisible({})
  {
    assert G == TimesG({0});
    assert {} == TimesG({});
  }

  lemma TimesGAdd(a: Poly, b: Poly)
    ensures TimesG(Add(a, b)) == Add(TimesG(a), TimesG(b))
  {
    TimesAdd(16, a, b);
    TimesAdd(12, a, b);
    TimesAdd(5, a, b);
    AddInterchange(Times(16, a), Times(16, b), Times(12, a), Times(12, b));
    AddInterchange(Times(5, a), Times(5, b), a, b);
    AddInterchange(Add(Times(16, a), Times(12, a)), Add(Times(16, b), Times(12, b)),
                   Add(Times(5, a), a), Add(Times(5, b), b));
  }

  lemma AddCommutes(p: Poly, q: Poly)
    ensures Add(p, q) == Add(q, p)
  {
  }

  lemma AddAssociative(a: Poly, b: Poly, c: Poly)
    ensures Add(a, Add(b, c)) == Add(Add(a, b), c)
  {
  }

  lemma AddRotate(a: Poly, b: Poly, c: Poly)
    ensures Add(a, Add(b, c)) == Add(b, Add(a, c))
  {
  }

  lemma AddInterchange(a: Poly, b: Poly, c: Poly, d: Poly)
    ensures Add(Add(a, b), Add(c, d)) == Add(Add(a, c), Add(b, d))
  {
  }

  lemma DivisibleAdd(p: Poly, q: Poly)
    requires Divisible(p) && Divisible(q)
    ensures Divisible(Add(p, q))
  {
    var a: Poly :| p == TimesG(a);
    var b: Poly :| q == TimesG(b);
    TimesGAdd(a, b);
  }

  /** G commutes with powers of x. */
  lemma TimesGTimes(k: nat, q: Poly)
    ensures TimesG(Times(k, q)) == Times(k, TimesG(q))
  {
    TimesTimes(16, k, q);
    TimesTimes(k, 16, q);
    TimesTimes(12, k, q);
    TimesTimes(k, 12, q);
    TimesTimes(5, k, q);
    TimesTimes(k, 5, q);
    TimesAdd(k, Times(16, q), Times(12, q));
    TimesAdd(k, Times(5, q), q);
    TimesAdd(k, Add(Times(16, q), Times(12, q)), Add(Times(5, q), q));
  }

  lemma DivisibleTimes(k: nat, p: Poly)
    requires Divisible(p)
    ensures Divisible(Times(k, p))
  {
    var a: Poly :| p == TimesG(a);
    TimesGTimes(k, a);
  }

  lemma CongruentTrans(p: Poly, q: Poly, r: Poly)
    requires Congruent(p, q) && Congruent(q, r)
    ensures Congruent(p, r) && Congruent(r, p)
  {
    DivisibleAdd(Add(p, q), Add(q, r));
    assert Add(Add(p, q), Add(q, r)) == Add(p, r) == Add(r, p);
  }

  lemma CongruentSym(p: Poly, q: Poly)
    requires Congruent(p, q)
    ensures Congruent(q, p)
  {
    AddCommutes(p, q);
  }

  lemma CongruentRefl(p: Poly)
    ensures Congruent(p, p)
  {
    GIsMultiple();
    assert Add(p, p) == {};
  }

  lemma CongruentAdd(p: Poly, p': Poly, q: Poly, q': Poly)
    requires Congruent(p, p') && Congruent(q, q')
    ensures Congruent(Add(p, q), Add(p', q'))
  {
    DivisibleAdd(Add(p, p'), Add(q, q'));
    assert Add(Add(p, p'), Add(q, q')) == Add(Add(p, q), Add(p', q'));
  }

  lemma CongruentTimes(k: nat, p: Poly, q: Poly)
    requires Congruent(p, q)
    ensures Congruent(Times(k, p), Times(k, q))
  {
    DivisibleTimes(k, Add(p, q));
    TimesAdd(k, p, q);
  }

  // ---------------------------------------------------------------------------
  // Degree, cancellation of x, parity
  // ---------------------------------------------------------------------------

  lemma {:induction false} Highest(p: Poly) returns (m: nat)
    requires p != {}
    ensures m in p && DegreeBelow(p, m + 1)
    decreases |p|
  {
    m :| m in p;
    var rest := p - {m};
    if rest != {} {
      var h := Highest(rest);
      m := if h > m then h else m;
    }
    assert forall e :: e in p ==> e in rest || e in p - rest;
  }

  lemma LeadingTerm(q: Poly, m: nat)
    requires m in q && DegreeBelow(q, m + 1)
    ensures m + 16 in TimesG(q)
  {
    assert m + 4 !in q && m + 11 !in q && m + 16 !in q;
  }

  /** The only multiple of G of degree below 16 is zero. */
  lemma SmallMultipleIsZero(p: Poly)
    requires Divisible(p) && DegreeBelow(p, 16)
    ensures p == {}
  {
    var q: Poly :| p == TimesG(q);
    if q != {} {
      var m := Highest(q);
      LeadingTerm(q, m);
    }
  }

  /** Remainders are unique, so "the" remainder of a division by G makes sense. */
  lemma RemainderUnique(p: Poly, r: Poly, r': Poly)
    requires Congruent(p, r) && DegreeBelow(r, 16)
    requires Congruent(p, r') && DegreeBelow(r', 16)
    ensures r == r'
  {
    CongruentSym(p, r);
    CongruentTrans(r, p, r');
    SmallMultipleIsZero(Add(r, r'));
    forall e: nat
      ensures e in r <==> e in r'
    {
      assert e !in Add(r, r');
    }
  }

  lemma CancelX(p: Poly)
    requires Divisible(Times(1, p))
    ensures Divisible(p)
  {
    var q: Poly :| Times(1, p) == TimesG(q);
    assert 0 !in TimesG(q) && 0 !in q;
    var q' := DividedByX(q);
    TimesGTimes(1, q');
    TimesInjective(1, p, TimesG(q'));
  }

  lemma DividedByX(q: Poly) returns (r: Poly)
    requires 0 !in q
    ensures q == Times(1, r)
  {
    r := set e | e in q :: e - 1;
    forall e: nat
      ensures e in q <==> e in Times(1, r)
    {
      if e in q {
        assert e - 1 in r;
      }
    }
  }

  /** x is invertible modulo G. */
  lemma {:induction false} CancelPower(k: nat, p: Poly)
    requires Divisible(Times(k, p))
    ensures Divisible(p)
  {
    if k == 0 {
      assert Times(0, p) == p;
    } else {
      TimesTimes(1, k - 1, p);
      CancelX(Times(k - 1, p));
      CancelPower(k - 1, p);
    }
  }

  lemma {:induction false} TimesSize(k: nat, p: Poly)
    ensures |Times(k, p)| == |p|
    decreases |p|
  {
    if p == {} {
      assert Times(k, p) == {};
    } else {
      var e :| e in p;
      TimesSize(k, p - {e});
      assert Times(k, p) == Times(k, p - {e}) + {e + k};
      assert e + k !in Times(k, p - {e});
    }
  }

  predicate Odd(p: Poly) {
    |p| % 2 == 1
  }

  lemma AddParity(p: Poly, q: Poly)
    ensures Odd(Add(p, q)) <==> (Odd(p) != Odd(q))
  {
    assert p == (p - q) + p * q;
    assert q == (q - p) + p * q;
    assert |p| == |p - q| + |p * q| && |q| == |q - p| + |p * q|;
  }

  lemma TimesParity(k: nat, p: Poly)
    ensures Odd(Times(k, p)) <==> Odd(p)
  {
    TimesSize(k, p);
  }

  /** G has the factor x + 1: every multiple has an even number of terms. */
  lemma MultipleIsEven(p: Poly)
    requires Divisible(p)
    ensures !Odd(p)
  {
    var q: Poly :| p == TimesG(q);
    TimesParity(16, q);
    TimesParity(12, q);
    TimesParity(5, q);
    AddParity(Times(16, q), Times(12, q));
    AddParity(Times(5, q), q);
    AddParity(Add(Times(16, q), Times(12, q)), Add(Times(5, q), q));
  }

  // ---------------------------------------------------------------------------
  // Squaring modulo G
  // ---------------------------------------------------------------------------

  lemma SquaredAdd(p: Poly, q: Poly)
    ensures Squared(Add(p, q)) == Add(Squared(p), Squared(q))
  {
  }

  lemma SquaredTimes(k: nat, p: Poly)
    ensures Squared(Times(k, p)) == Times(2 * k, Squared(p))
  {
    forall e: nat
      ensures e in Squared(Times(k, p)) <==> e in Times(2 * k, Squared(p))
    {
      if e >= 2 * k {
        assert (e - 2 * k) / 2 == e / 2 - k;
      }
    }
  }

  lemma TenTerms(a32: Poly, a28: Poly, a24: Poly, a21: Poly, a17: Poly,
                 a16: Poly, a12: Poly, a10: Poly, a5: Poly, a0: Poly)
    ensures Add(Add(Add(Add(a32, a28), Add(a21, a16)), Add(Add(a28, a24), Add(a17, a12))),
                Add(Add(Add(a21, a17), Add(a10, a5)), Add(Add(a16, a12), Add(a5, a0))))
         == Add(Add(a32, a24), Add(a10, a0))
  {
  }

  /** G G = x^32 + x^24 + x^10 + 1 */
  lemma TimesGTwice(r: Poly)
    ensures TimesG(TimesG(r)) == Add(Add(Times(32, r), Times(24, r)), Add(Times(10, r), r))
  {
    TimesGAdd(Add(Times(16, r), Times(12, r)), Add(Times(5, r), r));
    TimesGAdd(Times(16, r), Times(12, r));
    TimesGAdd(Times(5, r), r);
    TimesTimes(16, 16, r);
    TimesTimes(12, 16, r);
    TimesTimes(5, 16, r);
    TimesTimes(16, 12, r);
    TimesTimes(12, 12, r);
    TimesTimes(5, 12, r);
    TimesTimes(16, 5, r);
    TimesTimes(12, 5, r);
    TimesTimes(5, 5, r);
    TenTerms(Times(32, r), Times(28, r), Times(24, r), Times(21, r), Times(17, r),
             Times(16, r), Times(12, r), Times(10, r), Times(5, r), r);
  }

  /** (G Q)^2 is again a multiple of G. */
  lemma SquaredDivisible(p: Poly)
    requires Divisible(p)
    ensures Divisible(Squared(p))
  {
    var q: Poly :| p == TimesG(q);
    SquaredAdd(Add(Times(16, q), Times(12, q)), Add(Times(5, q), q));
    SquaredAdd(Times(16, q), Times(12, q));
    SquaredAdd(Times(5, q), q);
    SquaredTimes(16, q);
    SquaredTimes(12, q);
    SquaredTimes(5, q);
    TimesGTwice(Squared(q));
  }
}
