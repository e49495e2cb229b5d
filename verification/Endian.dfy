/** Big-endian integers (include/cfdp_endian.h). */
module Endian {
  import opened Octets

  function Pow256(n: nat): (p: nat)
    ensures p > 0
  {
    if n == 0 then 1 else 256 * Pow256(n - 1)
  }

  function Pow2(n: nat): (p: nat)
    ensures p > 0
  {
    if n == 0 then 1 else 2 * Pow2(n - 1)
  }

  /** The `n` low octets of `v`, most significant first. */
  function BigEndian(v: nat, n: nat): (s: octets)
    ensures |s| == n
  {
    if n == 0 then [] else BigEndian(v / 256, n - 1) + [v % 256]
  }

  /** The number an octet string denotes in positional notation, base 256. */
  function FromBigEndian(s: octets): nat
  {
    if s == [] then 0 else 256 * FromBigEndian(s[..|s| - 1]) + s[|s| - 1]
  }

  lemma MulGap(d: nat, a: nat, b: nat)
    requires a > b
    ensures d * a >= d * b + d
  {
    assert d * a == d * b + d * (a - b);
    assert d * (a - b) == d * (a - b - 1) + d;
  }

  lemma ModUnique(v: nat, d: nat, k: nat, r: nat)
    requires v == d * k + r && r < d
    ensures v / d == k && v % d == r
  {
    assert d * (v / d) + v % d == v;
    if v / d > k {
      MulGap(d, v / d, k);
    } else if v / d < k {
      MulGap(d, k, v / d);
    }
  }

  lemma ReadAppended(s: octets, o: octet)
    ensures FromBigEndian(s + [o]) == 256 * FromBigEndian(s) + o
  {
    assert (s + [o])[..|s|] == s;
  }

  /** Reading back what was written keeps the value modulo 256^n. */
  lemma {:induction false} ReadOfWrite(v: nat, n: nat)
    ensures FromBigEndian(BigEndian(v, n)) == v % Pow256(n)
  {
    if n == 0 {
    } else {
      ReadOfWrite(v / 256, n - 1);
      ReadAppended(BigEndian(v / 256, n - 1), v % 256);
      ModSplit(v, Pow256(n - 1));
    }
  }

  lemma ModSplit(v: nat, p: nat)
    requires p > 0
    ensures v % (256 * p) == 256 * ((v / 256) % p) + v % 256
  {
    var k, m := v / 256 / p, (v / 256) % p;
    assert v / 256 == p * k + m;
    assert 256 * (p * k) == (256 * p) * k;
    ModUnique(v, 256 * p, k, 256 * m + v % 256);
  }

  /** Writing back what was read restores the octets. */
  lemma {:induction false} WriteOfRead(s: octets)
    ensures FromBigEndian(s) < Pow256(|s|)
    ensures BigEndian(FromBigEndian(s), |s|) == s
  {
    if s == [] {
    } else {
      WriteOfRead(s[..|s| - 1]);
    }
  }

  lemma PowMonotone(m: nat, n: nat)
    requires m <= n
    ensures Pow256(m) <= Pow256(n)
  {
    if m < n {
      PowMonotone(m, n - 1);
    }
  }

  lemma Pow256Values()
    ensures Pow256(0) == 1 && Pow256(1) == 0x100 && Pow256(2) == 0x1_0000
    ensures Pow256(4) == 0x1_0000_0000 && Pow256(8) == 0x1_0000_0000_0000_0000
  {
    assert Pow256(1) == 0x100 && Pow256(2) == 0x1_0000;
    assert Pow256(3) == 0x100_0000 && Pow256(4) == 0x1_0000_0000;
    assert Pow256(5) == 0x100_0000_0000 && Pow256(6) == 0x1_0000_0000_0000;
    assert Pow256(7) == 0x100_0000_0000_0000;
  }

  /** The part of `v` that fits in `n` octets. */
  function LowOctets(v: uint64, n: nat): (r: uint64)
    ensures r == v % Pow256(n) && r <= v
  {
    ModAtMost(v, Pow256(n));
    v % Pow256(n)
  }

  lemma ModAtMost(v: nat, d: nat)
    requires d > 0
    ensures v % d <= v
  {
    assert d * (v / d) >= 0;
  }

  /** Bit `i` of a number, bit 0 the least significant. */
  predicate NumberBit(n: nat, i: nat) {
    if i == 0 then n % 2 == 1 else NumberBit(n / 2, i - 1)
  }

  /** Bit `p` of a message in transmission order, most significant bit first. */
  predicate WireBit(s: octets, p: nat)
    requires p < 8 * |s|
  {
    NumberBit(s[p / 8], 7 - p % 8)
  }

  /** cfdp_write_uint: octets are stored from the last one back while `value` is
      shifted right. */
  method WriteUint(buf: array<octet>, start: nat, value: uint64, nbytes: nat)
    requires start + nbytes <= buf.Length
    modifies buf
    ensures buf[..] == Splice(old(buf[..]), start, BigEndian(value, nbytes))
  {
    ghost var before := buf[..];
    var rest: uint64 := value;
    for i := 0 to nbytes
      invariant BigEndian(value, nbytes) == BigEndian(rest, nbytes - i) + buf[start + nbytes - i..start + nbytes]
      invariant forall k :: 0 <= k < buf.Length && !(start + nbytes - i <= k < start + nbytes) ==> buf[k] == before[k]
    {
      ghost var done := buf[start + nbytes - i..start + nbytes];
      buf[start + nbytes - 1 - i] := rest % 256;
      assert buf[start + nbytes - 1 - i..start + nbytes] == [rest % 256] + done;
      rest := rest / 256;
    }
  }

  /** cfdp_write_uint on `&buf[pos]`, behind the octets `done` already written from
      `start` on. */
  method AppendUint(buf: array<octet>, start: nat, pos: nat, value: uint64, nbytes: nat,
                    ghost before: octets, ghost done: octets)
    requires |done| == pos && start + pos + nbytes <= buf.Length == |before|
    requires buf[..] == Splice(before, start, done)
    modifies buf
    ensures buf[..] == Splice(before, start, done + BigEndian(value, nbytes))
  {
    WriteUint(buf, start + pos, value, nbytes);
    SpliceTwice(before, start, done, BigEndian(value, nbytes));
  }

  /** cfdp_read_uint. With at most eight octets the 64-bit accumulator never wraps. */
  method ReadUint(s: octets, nbytes: nat) returns (value: uint64)
    requires nbytes <= |s| && nbytes <= 8
    ensures value == FromBigEndian(s[..nbytes])
  {
    value := 0;
    for i := 0 to nbytes
      invariant value == FromBigEndian(s[..i])
    {
      assert s[..i + 1][..i] == s[..i];
      WriteOfRead(s[..i + 1]);
      PowMonotone(i + 1, 8);
      Pow256Values();
      value := 256 * value + s[i];
    }
  }
}
