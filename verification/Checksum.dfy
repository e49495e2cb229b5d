/** The modular file checksum (src/cfdp_checksum.c): the arithmetic sum modulo 2^32
    of the big-endian 4-octet words of a file, section 4.2.5 of CCSDS 727.0-B-5,
    accumulated segment by segment. */
module Checksum {
  import opened Octets
  import opened Endian
  import opened Sums

  const MODULUS: nat := 0x1_0000_0000
  const OFFSETS: nat := 0x1_0000_0000_0000_0000

  /** A piece of a file and the position of its first octet. */
  datatype Segment = Segment(offset: uint64, data: octets)

  /** What one octet adds to the sum: it lands in the lane of a 4-octet word that its
      absolute position selects. */
  function LaneValue(d: octet, position: nat): nat {
    d * Pow256(3 - position % 4)
  }

  /** What the octets of `data` add to the sum when the first one has the given
      position: an unbounded number, so that order cannot matter. */
  function Contribution(position: nat, data: octets): nat {
    if data == [] then 0
    else Contribution(position, data[..|data| - 1]) + LaneValue(data[|data| - 1], position + |data| - 1)
  }

  function SegmentValue(s: Segment): nat {
    Contribution(s.offset, s.data)
  }

  function Updated(checksum: uint32, s: Segment): uint32 {
    (checksum + Contribution(s.offset, s.data)) % MODULUS
  }

  /** cfdp_checksum_update: 64-bit position, 32-bit sum, both wrapping. */
  method ChecksumUpdate(checksum: uint32, offset: uint64, data: octets) returns (sum: uint32)
    ensures sum == Updated(checksum, Segment(offset, data))
  {
    sum := checksum;
    if |data| == 0 {
      return;
    }
    for i := 0 to |data|
      invariant sum == Updated(checksum, Segment(offset, data[..i]))
    {
      var lane := (offset + i) % OFFSETS % 4;
      var term := data[i] * Pow256(3 - lane);
      UpdatedStep(checksum, offset, data, i, lane);
      sum := (sum + term) % MODULUS;
    }
    assert data[..|data|] == data;
  }

  lemma ContributionStep(position: nat, data: octets, i: nat)
    requires i < |data|
    ensures Contribution(position, data[..i + 1])
         == Contribution(position, data[..i]) + LaneValue(data[i], position + i)
  {
    assert data[..i + 1][..i] == data[..i];
  }

  lemma UpdatedStep(checksum: uint32, offset: uint64, data: octets, i: nat, lane: nat)
    requires i < |data| && lane == (offset + i) % OFFSETS % 4
    ensures Updated(checksum, Segment(offset, data[..i + 1]))
         == (Updated(checksum, Segment(offset, data[..i])) + data[i] * Pow256(3 - lane)) % MODULUS
  {
    LaneSurvivesWrap(offset + i);
    ContributionStep(offset, data, i);
    AddWrapped(checksum + Contribution(offset, data[..i]), LaneValue(data[i], offset + i));
  }

  /** cfdp_checksum_compute */
  method ChecksumCompute(data: octets) returns (sum: uint32)
    ensures sum == Compute(data)
  {
    sum := ChecksumUpdate(0, 0, data);
  }

  function Compute(data: octets): uint32 {
    Contribution(0, data) % MODULUS
  }

  lemma AddWrapped(a: nat, b: nat)
    ensures (a % MODULUS + b) % MODULUS == (a + b) % MODULUS
  {
  }

  /** The byte lane is unaffected when the 64-bit position wraps. */
  lemma LaneSurvivesWrap(position: nat)
    ensures position % 0x1_0000_0000_0000_0000 % 4 == position % 4
  {
  }

  // ---------------------------------------------------------------------------
  // Streaming
  // ---------------------------------------------------------------------------

  /** The running checksum after the given segments, each folded in with
      cfdp_checksum_update. */
  function Fold(checksum: uint32, segments: seq<Segment>): uint32
    decreases |segments|
  {
    if segments == [] then checksum
    else Fold(Updated(checksum, segments[0]), segments[1..])
  }

  lemma {:induction false} FoldIsTotal(checksum: uint32, segments: seq<Segment>)
    ensures Fold(checksum, segments) == (checksum + Sum(SegmentValue, segments)) % 0x1_0000_0000
    decreases |segments|
  {
    if segments != [] {
      var c := Contribution(segments[0].offset, segments[0].data);
      FoldIsTotal(Updated(checksum, segments[0]), segments[1..]);
      AddWrapped(checksum + c, Sum(SegmentValue, segments[1..]));
    }
  }

  lemma {:induction false} FoldSplit(checksum: uint32, a: seq<Segment>, b: seq<Segment>)
    ensures Fold(checksum, a + b) == Fold(Fold(checksum, a), b)
    decreases |a|
  {
    if a == [] {
      assert a + b == b;
    } else {
      assert (a + b)[1..] == a[1..] + b;
      FoldSplit(Updated(checksum, a[0]), a[1..], b);
    }
  }

  /** Splitting a run of octets anywhere splits its contribution. */
  lemma {:induction false} ContributionSplit(position: nat, a: octets, b: octets)
    ensures Contribution(position, a + b) == Contribution(position, a) + Contribution(position + |a|, b)
  {
    if b == [] {
      assert a + b == a;
    } else {
      var b' := b[..|b| - 1];
      assert (a + b)[..|a + b| - 1] == a + b';
      ContributionSplit(position, a, b');
    }
  }

  /** The segments cover `file` from the given position on, in order, without gaps
      or overlaps. */
  ghost predicate Tiles(file: octets, position: nat, segments: seq<Segment>)
    decreases |segments|
  {
    if segments == [] then file == []
    else
      var data := segments[0].data;
      segments[0].offset == position && data <= file
      && Tiles(file[|data|..], position + |data|, segments[1..])
  }

  lemma {:induction false} TilesTotal(file: octets, position: nat, segments: seq<Segment>)
    requires Tiles(file, position, segments)
    ensures Sum(SegmentValue, segments) == Contribution(position, file)
    decreases |segments|
  {
    if segments != [] {
      var data := segments[0].data;
      TilesTotal(file[|data|..], position + |data|, segments[1..]);
      ContributionSplit(position, data, file[|data|..]);
      assert data + file[|data|..] == file;
    }
  }

  /** Section 4.2.5 streamed: whatever the segment boundaries and whatever the order
      of arrival, the running checksum ends at the checksum of the whole file. */
  lemma AnySplitAnyOrder(file: octets, segments: seq<Segment>, arrived: seq<Segment>)
    requires Tiles(file, 0, segments)
    requires multiset(arrived) == multiset(segments)
    ensures Fold(0, arrived) == Compute(file)
  {
    FoldIsTotal(0, arrived);
    SumPermuted(SegmentValue, arrived, segments);
    TilesTotal(file, 0, segments);
  }

  // ---------------------------------------------------------------------------
  // The definition by words
  // ---------------------------------------------------------------------------

  /** `data` extended with zero octets to a whole number of words. */
  function Padded(data: octets): octets {
    data + seq((4 - |data| % 4) % 4, _ => 0)
  }

  function WordSum(data: octets): nat
    requires |data| % 4 == 0
  {
    if data == [] then 0 else FromBigEndian(data[..4]) + WordSum(data[4..])
  }

  lemma {:induction false} ZeroContribution(position: nat, n: nat)
    ensures Contribution(position, seq(n, _ => 0)) == 0
  {
    if n > 0 {
      assert seq(n, _ => 0)[..n - 1] == seq(n - 1, _ => 0);
      ZeroContribution(position, n - 1);
    }
  }

  lemma LaneOf(d: octet, position: nat, lane: nat, weight: nat)
    requires position % 4 == 0 && lane < 4 && weight == Pow256(3 - lane)
    ensures LaneValue(d, position + lane) == weight * (d as int)
  {
    assert (position + lane) % 4 == lane;
  }

  lemma LaneValues(d: octet, position: nat)
    requires position % 4 == 0
    ensures LaneValue(d, position) == 0x100_0000 * (d as int)
    ensures LaneValue(d, position + 1) == 0x1_0000 * (d as int)
    ensures LaneValue(d, position + 2) == 0x100 * (d as int)
    ensures LaneValue(d, position + 3) == d
  {
    Pow256Values();
    assert Pow256(3) == 0x100_0000;
    LaneOf(d, position, 0, 0x100_0000);
    LaneOf(d, position, 1, 0x1_0000);
    LaneOf(d, position, 2, 0x100);
    LaneOf(d, position, 3, 1);
  }

  lemma {:induction false} FourOctets(w: octets)
    requires |w| == 4
    ensures FromBigEndian(w) == 0x100_0000 * (w[0] as int) + 0x1_0000 * (w[1] as int) + 0x100 * (w[2] as int) + w[3]
  {
    assert w[..3][..2] == w[..2] && w[..2][..1] == w[..1] && w[..1][..0] == [];
    assert FromBigEndian(w[..1]) == w[0];
    assert FromBigEndian(w[..2]) == 0x100 * (w[0] as int) + w[1];
  }

  lemma WordContribution(position: nat, w: octets)
    requires |w| == 4 && position % 4 == 0
    ensures Contribution(position, w) == FromBigEndian(w)
  {
    FourOctets(w);
    LaneValues(w[0], position);
    LaneValues(w[1], position);
    LaneValues(w[2], position);
    LaneValues(w[3], position);
    assert w[..3][..2] == w[..2] && w[..2][..1] == w[..1] && w[..1][..0] == [];
    assert Contribution(position, w[..1]) == LaneValue(w[0], position);
    assert Contribution(position, w[..2]) == LaneValue(w[0], position) + LaneValue(w[1], position + 1);
  }

  lemma FirstWord(position: nat, data: octets)
    requires |data| >= 4 && position % 4 == 0
    ensures Contribution(position, data) == FromBigEndian(data[..4]) + Contribution(position + 4, data[4..])
  {
    TwoParts(data, 4);
    ContributionSplit(position, data[..4], data[4..]);
    WordContribution(position, data[..4]);
  }

  lemma {:induction false} WordsContribution(position: nat, data: octets)
    requires |data| % 4 == 0 && position % 4 == 0
    ensures Contribution(position, data) == WordSum(data)
    decreases |data|
  {
    if data != [] {
      FirstWord(position, data);
      WordsContribution(position + 4, data[4..]);
    }
  }

  lemma PaddedLength(data: octets)
    ensures |Padded(data)| % 4 == 0
  {
  }

  /** The checksum is the sum modulo 2^32 of the zero-padded big-endian words. */
  lemma ComputeIsWordSum(data: octets)
    ensures |Padded(data)| % 4 == 0
    ensures Compute(data) == WordSum(Padded(data)) % 0x1_0000_0000
  {
    PaddedLength(data);
    PaddedContribution(data);
    WordsContribution(0, Padded(data));
  }

  lemma PaddedContribution(data: octets)
    ensures Contribution(0, Padded(data)) == Contribution(0, data)
  {
    var n := (4 - |data| % 4) % 4;
    ContributionSplit(0, data, seq(n, _ => 0));
    ZeroContribution(|data|, n);
  }
}
