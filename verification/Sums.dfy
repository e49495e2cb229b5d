/** Sums and collections over sequences do not depend on the order of the terms. */
module Sums {

  function Sum<T>(weight: T -> nat, s: seq<T>): nat {
    if s == [] then 0 else weight(s[0]) + Sum(weight, s[1..])
  }

  lemma {:induction false} SumSplit<T>(weight: T -> nat, a: seq<T>, b: seq<T>)
    ensures Sum(weight, a + b) == Sum(weight, a) + Sum(weight, b)
  {
    if a == [] {
      assert a + b == b;
    } else {
      assert (a + b)[1..] == a[1..] + b;
      SumSplit(weight, a[1..], b);
    }
  }

  function Without<T>(s: seq<T>, i: nat): seq<T>
    requires i < |s|
  {
    s[..i] + s[i + 1..]
  }

  lemma SumWithout<T>(weight: T -> nat, s: seq<T>, i: nat)
    requires i < |s|
    ensures Sum(weight, s) == weight(s[i]) + Sum(weight, Without(s, i))
  {
    var back := s[i..];
    assert s == s[..i] + back && back[1..] == s[i + 1..];
    SumSplit(weight, s[..i], back);
    SumSplit(weight, s[..i], s[i + 1..]);
  }

  lemma MultisetWithout<T>(s: seq<T>, i: nat)
    requires i < |s|
    ensures multiset(Without(s, i)) == multiset(s) - multiset{s[i]}
  {
    assert s == s[..i] + ([s[i]] + s[i + 1..]);
  }

  lemma {:induction false} SumPermuted<T>(weight: T -> nat, a: seq<T>, b: seq<T>)
    requires multiset(a) == multiset(b)
    ensures Sum(weight, a) == Sum(weight, b)
    decreases |a|
  {
    assert |multiset(a)| == |a| && |multiset(b)| == |b|;
    if a != [] {
      assert a[0] in multiset(a);
      var i :| 0 <= i < |b| && b[i] == a[0];
      SumWithout(weight, a, 0);
      SumWithout(weight, b, i);
      MultisetWithout(a, 0);
      MultisetWithout(b, i);
      SumPermuted(weight, Without(a, 0), Without(b, i));
    }
  }

  /** What `pick` takes from the elements of `s`, one after the other. */
  function Collect<T, U>(pick: T -> seq<U>, s: seq<T>): seq<U> {
    if s == [] then [] else pick(s[0]) + Collect(pick, s[1..])
  }

  lemma {:induction false} CollectSplit<T, U>(pick: T -> seq<U>, a: seq<T>, b: seq<T>)
    ensures Collect(pick, a + b) == Collect(pick, a) + Collect(pick, b)
  {
    if a == [] {
      assert a + b == b;
    } else {
      assert (a + b)[1..] == a[1..] + b;
      CollectSplit(pick, a[1..], b);
    }
  }

  lemma CollectOne<T, U>(pick: T -> seq<U>, x: T)
    ensures Collect(pick, [x]) == pick(x)
  {
    assert [x][1..] == [];
  }

  lemma CollectWithout<T, U>(pick: T -> seq<U>, s: seq<T>, i: nat)
    requires i < |s|
    ensures multiset(Collect(pick, s)) == multiset(pick(s[i])) + multiset(Collect(pick, Without(s, i)))
  {
    var back := s[i..];
    assert s == s[..i] + back && back[1..] == s[i + 1..];
    CollectSplit(pick, s[..i], back);
    CollectSplit(pick, s[..i], s[i + 1..]);
  }

  lemma {:induction false} CollectPermuted<T, U>(pick: T -> seq<U>, a: seq<T>, b: seq<T>)
    requires multiset(a) == multiset(b)
    ensures multiset(Collect(pick, a)) == multiset(Collect(pick, b))
    decreases |a|
  {
    assert |multiset(a)| == |a| && |multiset(b)| == |b|;
    if a != [] {
      assert a[0] in multiset(a);
      var i :| 0 <= i < |b| && b[i] == a[0];
      CollectWithout(pick, a, 0);
      CollectWithout(pick, b, i);
      MultisetWithout(a, 0);
      MultisetWithout(b, i);
      CollectPermuted(pick, Without(a, 0), Without(b, i));
    }
  }
}
