/** Octets, the fixed-width unsigned integers of the C code, and the two shapes
    shared by every codec: a splice into a caller-supplied buffer and the outcome
    of a decoder. */
module Octets {

  type octet = x: int | 0 <= x < 0x100
  type octets = seq<octet>

  type uint8 = x: int | 0 <= x < 0x100
  type uint16 = x: int | 0 <= x < 0x1_0000
  type uint32 = x: int | 0 <= x < 0x1_0000_0000
  type uint64 = x: int | 0 <= x < 0x1_0000_0000_0000_0000

  /** A value whose length the C code keeps in a `uint8_t`. */
  type shortOctets = s: octets | |s| <= 255

  /** A value whose length the C code keeps in a `uint16_t`. */
  type mediumOctets = s: octets | |s| <= 0xFFFF

  datatype Option<+T> = None | Some(value: T)

  /** What a decoder reports: a value and the number of octets it occupied, or an
      error (the return value 0 of the C functions). */
  datatype Decoding<+T> = Malformed | Decoded(value: T, consumed: nat)

  function Zeros(n: nat): (s: octets)
    ensures |s| == n
    ensures forall i :: 0 <= i < n ==> s[i] == 0
  {
    seq(n, _ => 0)
  }

  /** `s` with the octets from position `at` on overwritten by `t`. */
  function Splice(s: octets, at: nat, t: octets): (r: octets)
    requires at + |t| <= |s|
    ensures |r| == |s|
  {
    s[..at] + t + s[at + |t|..]
  }

  /** Two adjacent splices are one. */
  lemma SpliceTwice(s: octets, at: nat, a: octets, b: octets)
    requires at + |a| + |b| <= |s|
    ensures Splice(Splice(s, at, a), at + |a|, b) == Splice(s, at, a + b)
  {
  }

  /** Bookkeeping of a serialiser: after another piece has been written behind
      `done`, the buffer holds both. */
  ghost function Extend(s: octets, at: nat, done: octets, piece: octets): (r: octets)
    requires at + |done| + |piece| <= |s|
    ensures r == done + piece
    ensures Splice(Splice(s, at, done), at + |done|, piece) == Splice(s, at, r)
  {
    SpliceTwice(s, at, done, piece);
    done + piece
  }

  /** Patching the octets in front of a piece already written. */
  lemma SpliceBefore(s: octets, at: nat, a: octets, b: octets)
    requires at + |a| + |b| <= |s|
    ensures Splice(Splice(s, at + |a|, b), at, a) == Splice(s, at, a + b)
  {
  }

  lemma SpliceNothing(s: octets, at: nat)
    requires at <= |s|
    ensures Splice(s, at, []) == s
  {
  }

  /** Nothing outside the `cap` octets at `start` has changed. */
  predicate OnlyWithin(before: octets, after: octets, start: nat, cap: nat)
    requires start + cap <= |before| == |after|
  {
    after[..start] == before[..start] && after[start + cap..] == before[start + cap..]
  }

  lemma WithinLarger(before: octets, after: octets, start: nat, cap: nat, k: nat)
    requires k <= cap && start + cap <= |before| == |after|
    requires OnlyWithin(before, after, start + k, cap - k)
    ensures OnlyWithin(before, after, start, cap)
  {
    assert after[..start + k][..start] == after[..start] && before[..start + k][..start] == before[..start];
  }

  lemma SpliceWithin(s: octets, at: nat, t: octets, cap: nat)
    requires |t| <= cap && at + cap <= |s|
    ensures OnlyWithin(s, Splice(s, at, t), at, cap)
  {
  }

  /** `buf[at] = v` */
  method Store(buf: array<octet>, at: nat, v: octet)
    requires at < buf.Length
    modifies buf
    ensures buf[..] == Splice(old(buf[..]), at, [v])
  {
    buf[at] := v;
  }

  /** `buf[at] = v; buf[at + 1] = w` */
  method StorePair(buf: array<octet>, at: nat, v: octet, w: octet)
    requires at + 1 < buf.Length
    modifies buf
    ensures buf[..] == Splice(old(buf[..]), at, [v, w])
  {
    buf[at] := v;
    buf[at + 1] := w;
  }

  /** `memcpy(&buf[at], src, |src|)` */
  method Copy(buf: array<octet>, at: nat, src: octets)
    requires at + |src| <= buf.Length
    modifies buf
    ensures buf[..] == Splice(old(buf[..]), at, src)
  {
    forall i | 0 <= i < |src| {
      buf[at + i] := src[i];
    }
  }

  /** `memcpy(&buf[pos], src, |src|)` behind the octets `done` already written from
      `start` on. */
  method CopyAppend(buf: array<octet>, start: nat, pos: nat, src: octets, ghost before: octets, ghost done: octets)
    requires |done| == pos && start + pos + |src| <= buf.Length == |before|
    requires buf[..] == Splice(before, start, done)
    modifies buf
    ensures buf[..] == Splice(before, start, done + src)
  {
    Copy(buf, start + pos, src);
    SpliceTwice(before, start, done, src);
  }

  lemma Associate(a: octets, b: octets, c: octets)
    ensures a + b + c == a + (b + c)
  {
  }

  lemma TwoParts(s: octets, i: nat)
    requires i <= |s|
    ensures s[..i] + s[i..] == s
  {
  }

  lemma Adjacent(s: octets, i: nat, j: nat)
    requires i <= j <= |s|
    ensures s[..i] + s[i..j] == s[..j]
  {
  }

  /** A slice of a tail is a slice. */
  lemma TailSlice(s: octets, from: nat, i: nat, j: nat)
    requires i <= j && from + j <= |s|
    ensures s[from..][i..j] == s[from + i..from + j]
  {
    var a, b := s[from..][i..j], s[from + i..from + j];
    assert |a| == |b| && forall k :: 0 <= k < |a| ==> a[k] == b[k];
  }

  lemma TailTail(s: octets, from: nat, i: nat)
    requires from + i <= |s|
    ensures s[from..][i..] == s[from + i..]
  {
    var a, b := s[from..][i..], s[from + i..];
    assert |a| == |b| && forall k :: 0 <= k < |a| ==> a[k] == b[k];
  }

  lemma ThreeParts(s: octets, i: nat, j: nat)
    requires i <= j <= |s|
    ensures s[..i] + s[i..j] + s[j..] == s
  {
  }

  /** The parts of a concatenation, read back by position. */
  lemma Parts(a: octets, b: octets, c: octets)
    ensures (a + b)[..|a|] == a && (a + b)[|a|..] == b
    ensures (a + b + c)[..|a|] == a
    ensures (a + b + c)[|a|..|a| + |b|] == b
    ensures (a + b + c)[|a| + |b|..] == c
  {
  }
}
