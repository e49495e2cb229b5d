/** Placing, checking and relying on the PDU CRC (src/cfdp_pdu.c, section 4.1 of
    CCSDS 727.0-B-5). */
module PduCrc {
  import opened Octets
  import opened Endian
  import opened Crc
  import opened CrcDetection
  import opened Header

  const CRC_LEN: nat := 2

  /** cfdp_pdu_payload_size: the data field without its CRC. */
  function PayloadSize(h: PduHeader): nat {
    if h.crcFlag.CrcAbsent? then h.dataFieldLength
    else if h.dataFieldLength < CRC_LEN then 0
    else h.dataFieldLength - CRC_LEN
  }

  /** The length of the PDU that the header at the front of `s` describes. */
  function DescribedLength(s: octets): nat
    requires DecodeHeader(s).Decoded?
  {
    DecodeHeader(s).consumed + DecodeHeader(s).value.dataFieldLength
  }

  /** A PDU without its CRC, whose header counts one. */
  predicate AwaitsCrc(s: octets) {
    && DecodeHeader(s).Decoded?
    && DecodeHeader(s).value.crcFlag.CrcPresent?
    && DescribedLength(s) == |s| + CRC_LEN
  }

  function WithCrc(s: octets): octets {
    s + BigEndian(Compute(s), CRC_LEN)
  }

  /** cfdp_pdu_crc_append on the `pduLen` octets at `start`, with room for `cap`. */
  method CrcAppend(buf: array<octet>, start: nat, pduLen: nat, cap: nat) returns (n: nat)
    requires start + pduLen <= buf.Length && start + cap <= buf.Length
    modifies buf
    ensures var s := old(buf[start..start + pduLen]);
            n == if AwaitsCrc(s) && pduLen + CRC_LEN <= cap then pduLen + CRC_LEN else 0
    ensures var s := old(buf[start..start + pduLen]);
            buf[..] == if n > 0 then Splice(old(buf[..]), start, WithCrc(s)) else old(buf[..])
  {
    ghost var before := buf[..];
    var s := buf[start..start + pduLen];
    var size, h := HeaderDeserialize(s);
    if size == 0 || h.crcFlag.CrcAbsent? || cap < pduLen + CRC_LEN {
      return 0;
    }
    var described := HeaderSize(h) + h.dataFieldLength;
    if described != pduLen + CRC_LEN {
      return 0;
    }
    var crc := CrcCompute(s);
    WriteUint(buf, start + pduLen, crc, CRC_LEN);
    SpliceUnchanged(before, start, s);
    SpliceTwice(before, start, s, BigEndian(crc, CRC_LEN));
    return pduLen + CRC_LEN;
  }

  lemma SpliceUnchanged(s: octets, at: nat, t: octets)
    requires at + |t| <= |s| && s[at..at + |t|] == t
    ensures Splice(s, at, t) == s
  {
    assert s == s[..at] + s[at..at + |t|] + s[at + |t|..];
  }

  /** The receiver's rule of section 4.1.2. */
  predicate Verified(s: octets) {
    match DecodeHeader(s)
    case Malformed => false
    case Decoded(h, n) =>
      var total := n + h.dataFieldLength;
      total <= |s| && (h.crcFlag.CrcPresent? ==> CRC_LEN <= h.dataFieldLength && EndsInCrc(s[..total]))
  }

  /** The last two octets are the CRC of those before them. */
  predicate EndsInCrc(pdu: octets)
    requires |pdu| >= CRC_LEN
  {
    Compute(pdu[..|pdu| - CRC_LEN]) == ReadUint16(pdu[|pdu| - CRC_LEN..])
  }

  /** cfdp_pdu_crc_verify */
  method CrcVerify(s: octets) returns (ok: bool)
    ensures ok == Verified(s)
  {
    var size, h := HeaderDeserialize(s);
    if size == 0 {
      return false;
    }
    var total := size + h.dataFieldLength;
    if |s| < total {
      return false;
    }
    if h.crcFlag.CrcAbsent? {
      return true;
    }
    if h.dataFieldLength < CRC_LEN {
      return false;
    }
    var protectedLen := total - CRC_LEN;
    var expected := CrcCompute(s[..protectedLen]);
    assert s[protectedLen..][..CRC_LEN] == s[..total][protectedLen..];
    assert s[..protectedLen] == s[..total][..protectedLen];
    var received := ReadUint(s[protectedLen..], CRC_LEN);
    return expected == received;
  }

  // ---------------------------------------------------------------------------
  // Verification is the inverse of appending
  // ---------------------------------------------------------------------------

  /** Only the octets of the header decide what it decodes to. */
  lemma DecodePrefix(s: octets, t: octets)
    requires DecodeHeader(s).Decoded?
    requires DecodeHeader(s).consumed <= |t|
    requires t[..DecodeHeader(s).consumed] == s[..DecodeHeader(s).consumed]
    ensures DecodeHeader(t) == DecodeHeader(s)
  {
    var n := DecodeHeader(s).consumed;
    assert s[..n][..FIXED_LEN] == s[..FIXED_LEN] && t[..n][..FIXED_LEN] == t[..FIXED_LEN];
    assert s[..n][FIXED_LEN..n] == s[FIXED_LEN..n] && t[..n][FIXED_LEN..n] == t[FIXED_LEN..n];
  }

  /** A received frame long enough for the CRC-flagged PDU its header describes. */
  predicate CarriesCrc(s: octets) {
    && DecodeHeader(s).Decoded?
    && DecodeHeader(s).value.crcFlag.CrcPresent?
    && CRC_LEN <= DecodeHeader(s).value.dataFieldLength
    && DescribedLength(s) <= |s|
  }

  lemma FrontAwaits(s: octets, pdu: octets)
    requires CarriesCrc(s) && pdu == s[..DescribedLength(s)]
    ensures AwaitsCrc(pdu[..|pdu| - CRC_LEN])
  {
    var n, front := DecodeHeader(s).consumed, pdu[..|pdu| - CRC_LEN];
    assert front[..n] == s[..n];
    DecodePrefix(s, front);
  }

  lemma EndsInCrcMeans(pdu: octets)
    requires |pdu| >= CRC_LEN
    ensures EndsInCrc(pdu) <==> pdu == WithCrc(pdu[..|pdu| - CRC_LEN])
    ensures EndsInCrc(pdu) <==> Compute(pdu) == 0
  {
    var front, tail := pdu[..|pdu| - CRC_LEN], pdu[|pdu| - CRC_LEN..];
    assert pdu == front + tail;
    WriteOfRead(tail);
    WordValue(Compute(front));
    Residue(INIT, front, ReadUint16(tail));
    if pdu == WithCrc(front) {
      assert tail == WithCrc(front)[|front|..];
    }
  }

  lemma VerifiedByCrc(s: octets, pdu: octets)
    requires CarriesCrc(s) && pdu == s[..DescribedLength(s)]
    ensures |pdu| >= CRC_LEN && (Verified(s) <==> EndsInCrc(pdu))
  {
  }

  lemma VerifiedPdu(s: octets, pdu: octets)
    requires CarriesCrc(s) && pdu == s[..DescribedLength(s)]
    ensures |pdu| >= CRC_LEN && AwaitsCrc(pdu[..|pdu| - CRC_LEN])
    ensures Verified(s) <==> pdu == WithCrc(pdu[..|pdu| - CRC_LEN])
    ensures Verified(s) <==> Compute(pdu) == 0
  {
    FrontAwaits(s, pdu);
    VerifiedByCrc(s, pdu);
    EndsInCrcMeans(pdu);
  }

  /** Three readings of the check: the final octets are the CRC of those before them,
      the PDU is what cfdp_pdu_crc_append makes of its front part, and the register
      is left at zero by the whole PDU. */
  lemma VerifiedMeans(s: octets)
    requires CarriesCrc(s)
    ensures var pdu := s[..DescribedLength(s)];
            && AwaitsCrc(pdu[..|pdu| - CRC_LEN])
            && (Verified(s) <==> pdu == WithCrc(pdu[..|pdu| - CRC_LEN]))
            && (Verified(s) <==> Compute(pdu) == 0)
  {
    VerifiedPdu(s, s[..DescribedLength(s)]);
  }

  lemma SamePrefix(s: octets, t: octets, n: nat, m: nat)
    requires n <= m <= |s| && m <= |t| && s[..m] == t[..m]
    ensures s[..n] == t[..n]
  {
    assert s[..n] == s[..m][..n] && t[..n] == t[..m][..n];
  }

  lemma VerifiedFrom(s: octets, h: PduHeader, n: nat)
    requires DecodeHeader(s) == Decoded(h, n) && n + h.dataFieldLength <= |s|
    ensures Verified(s) <==>
            (h.crcFlag.CrcPresent? ==> CRC_LEN <= h.dataFieldLength && EndsInCrc(s[..n + h.dataFieldLength]))
  {
  }

  /** Which frames are accepted, read off their octets: a readable header, as many octets as
      it describes, and, if bit 6 is set, room for a CRC and a CRC of zero over all of them. */
  lemma AcceptedFrames(s: octets, n: nat, len: nat)
    requires |s| >= 4 && n == 4 + 2 * (s[3] / 16 % 8 + 1) + (s[3] % 8 + 1) && len == FromBigEndian(s[1..3])
    ensures Verified(s) <==>
            && s[0] / 32 == 1 && n + len <= |s|
            && (s[0] / 2 % 2 == 1 ==> len >= 2 && Compute(s[..n + len]) == 0)
  {
    AcceptedLanguage(s);
    assert s[..4][1..3] == s[1..3];
    if DecodeHeader(s).Decoded? && n + len <= |s| {
      VerifiedFrom(s, DecodeHeader(s).value, n);
      if len >= 2 {
        EndsInCrcMeans(s[..n + len]);
      }
    }
  }

  /** Which PDUs a CRC can be appended to, and what is appended: its two octets, the
      significant one first. */
  lemma AppendableFrames(s: octets, n: nat, len: nat)
    requires |s| >= 4 && n == 4 + 2 * (s[3] / 16 % 8 + 1) + (s[3] % 8 + 1) && len == FromBigEndian(s[1..3])
    ensures AwaitsCrc(s) <==> s[0] / 32 == 1 && n <= |s| && s[0] / 2 % 2 == 1 && n + len == |s| + 2
  {
    AcceptedLanguage(s);
    assert s[..4][1..3] == s[1..3];
  }

  lemma AppendedOctets(s: octets)
    ensures WithCrc(s) == s + [Compute(s) / 256, Compute(s) % 256]
  {
    TwoOctets(Compute(s));
  }

  lemma TwoOctets(v: uint16)
    ensures BigEndian(v, 2) == [v / 256, v % 256]
  {
    assert BigEndian(v / 256, 1) == [v / 256];
  }

  /** The payload is the data field, less two octets if there is a CRC, but never less than
      nothing. */
  lemma PayloadSizes(h: PduHeader)
    ensures h.crcFlag.CrcAbsent? ==> PayloadSize(h) == h.dataFieldLength
    ensures h.crcFlag.CrcPresent? && h.dataFieldLength >= 2 ==> PayloadSize(h) + 2 == h.dataFieldLength
    ensures h.crcFlag.CrcPresent? && h.dataFieldLength < 2 ==> PayloadSize(h) == 0
  {
  }

  lemma ShortFrames(s: octets)
    requires |s| < 4
    ensures !Verified(s) && !AwaitsCrc(s)
  {
  }

  /** Octets past the described length play no part. */
  lemma PaddingIgnored(s: octets, t: octets)
    requires DecodeHeader(s).Decoded? && DescribedLength(s) <= |s| && DescribedLength(s) <= |t|
    requires t[..DescribedLength(s)] == s[..DescribedLength(s)]
    ensures DecodeHeader(t) == DecodeHeader(s) && (Verified(t) <==> Verified(s))
  {
    var h, n := DecodeHeader(s).value, DecodeHeader(s).consumed;
    SamePrefix(s, t, n, DescribedLength(s));
    DecodePrefix(s, t);
    VerifiedFrom(s, h, n);
    VerifiedFrom(t, h, n);
  }

  /** What was appended verifies, with any padding behind it. */
  lemma AppendedVerifies(s: octets, padding: octets)
    requires AwaitsCrc(s)
    ensures CarriesCrc(WithCrc(s) + padding)
    ensures DecodeHeader(WithCrc(s) + padding) == DecodeHeader(s)
    ensures DescribedLength(WithCrc(s) + padding) == |s| + CRC_LEN
    ensures Verified(WithCrc(s) + padding)
  {
    var t := WithCrc(s) + padding;
    assert t[..|s|] == s;
    var n := DecodeHeader(s).consumed;
    assert t[..n] == s[..n];
    DecodePrefix(s, t);
    assert t[..|s| + CRC_LEN] == WithCrc(s) && WithCrc(s)[..|s|] == s;
    EndsInCrcMeans(WithCrc(s));
  }

  // ---------------------------------------------------------------------------
  // What a receiver detects
  // ---------------------------------------------------------------------------

  lemma SameFixedOctets(s: octets, t: octets)
    requires DecodeHeader(s).Decoded? && DescribedLength(s) <= |t|
    requires t[..FIXED_LEN] == s[..FIXED_LEN]
    ensures DecodeHeader(t).Decoded? && DecodeHeader(t).consumed == DecodeHeader(s).consumed
    ensures DecodeHeader(t).value.crcFlag == DecodeHeader(s).value.crcFlag
    ensures DecodeHeader(t).value.dataFieldLength == DecodeHeader(s).value.dataFieldLength
  {
  }

  /** `t` is the frame `s` corrupted somewhere behind the four fixed octets, which say
      where the CRC is and whether there is one. */
  predicate Corrupted(s: octets, t: octets) {
    && CarriesCrc(s)
    && DescribedLength(s) <= |t|
    && t[..FIXED_LEN] == s[..FIXED_LEN]
  }

  /** The bits of the described PDU that were flipped. */
  function Flips(s: octets, t: octets): set<nat>
    requires Corrupted(s, t)
  {
    FlippedBits(s[..DescribedLength(s)], t[..DescribedLength(s)])
  }

  lemma VerifiedResidue(s: octets, total: nat)
    requires CarriesCrc(s) && total == DescribedLength(s)
    ensures Verified(s) <==> Update(INIT, s[..total]) == 0
  {
    VerifiedMeans(s);
  }

  lemma CorruptedVerified(s: octets, t: octets)
    requires Corrupted(s, t)
    ensures Verified(s) <==> Update(INIT, s[..DescribedLength(s)]) == 0
    ensures Verified(t) <==> Update(INIT, t[..DescribedLength(s)]) == 0
  {
    SameFixedOctets(s, t);
    VerifiedResidue(s, DescribedLength(s));
    VerifiedResidue(t, DescribedLength(s));
  }

  /** A PDU with an odd number of flipped bits is discarded. */
  lemma OddErrorDiscarded(s: octets, t: octets)
    requires Corrupted(s, t) && Verified(s)
    requires |Flips(s, t)| % 2 == 1
    ensures !Verified(t)
  {
    CorruptedVerified(s, t);
    OddErrorDetected(INIT, s[..DescribedLength(s)], t[..DescribedLength(s)]);
  }

  /** A PDU damaged only within sixteen consecutive bits is discarded. */
  lemma BurstDiscarded(s: octets, t: octets, first: nat)
    requires Corrupted(s, t) && Verified(s)
    requires Flips(s, t) != {}
    requires forall p :: p in Flips(s, t) ==> first <= p < first + 16
    ensures !Verified(t)
  {
    CorruptedVerified(s, t);
    BurstDetected(INIT, s[..DescribedLength(s)], t[..DescribedLength(s)], first);
  }

  /** A PDU with two flipped bits is discarded unless they are a multiple of 32767
      bits apart, and accepted if they are. */
  lemma DoubleErrorDiscarded(s: octets, t: octets, i: nat, j: nat)
    requires Corrupted(s, t) && Verified(s)
    requires i < j && Flips(s, t) == {i, j}
    ensures Verified(t) <==> (j - i) % 32767 == 0
  {
    CorruptedVerified(s, t);
    DoubleError(INIT, s[..DescribedLength(s)], t[..DescribedLength(s)], i, j);
  }

  predicate Burst(flips: set<nat>, first: nat) {
    flips != {} && forall p | p in flips :: first <= p < first + 16
  }

  predicate ClosePair(flips: set<nat>, i: nat, j: nat) {
    i < j < i + 32767 && flips == {i, j}
  }

  /** Damage of a kind that the CRC is there to catch: an odd number of flipped bits,
      a burst of at most sixteen, or two less than 32767 apart. */
  ghost predicate Detectable(flips: set<nat>) {
    |flips| % 2 == 1 || (exists first :: Burst(flips, first)) || (exists i, j :: ClosePair(flips, i, j))
  }

  lemma ShortDistance(i: nat, j: nat)
    requires i < j < i + 32767
    ensures (j - i) % 32767 != 0
  {
  }

  lemma ClosePairDiscarded(s: octets, t: octets, i: nat, j: nat)
    requires Corrupted(s, t) && Verified(s) && ClosePair(Flips(s, t), i, j)
    ensures !Verified(t)
  {
    ShortDistance(i, j);
    DoubleErrorDiscarded(s, t, i, j);
  }

  ghost predicate DamagedCopy(s: octets, t: octets) {
    Corrupted(s, t) && Detectable(Flips(s, t))
  }

  /** A damaged copy of a good PDU is discarded. */
  lemma DamagedDiscarded(s: octets, t: octets)
    requires Verified(s) && DamagedCopy(s, t)
    ensures !Verified(t)
  {
    if |Flips(s, t)| % 2 == 1 {
      OddErrorDiscarded(s, t);
    } else if first :| Burst(Flips(s, t), first) {
      BurstDiscarded(s, t, first);
    } else {
      var i, j :| ClosePair(Flips(s, t), i, j);
      ClosePairDiscarded(s, t, i, j);
    }
  }

  // ---------------------------------------------------------------------------
  // What a receiver does not detect
  // ---------------------------------------------------------------------------

  /** Adding a power of two to a number flips that bit and leaves those below alone. */
  lemma {:induction false} AddPower(n: nat, w: nat, k: nat)
    requires k <= w
    ensures NumberBit(n + Pow2(w), k) <==> (NumberBit(n, k) <==> k != w)
    decreases k
  {
    if k > 0 {
      assert (n + 2 * Pow2(w - 1)) / 2 == n / 2 + Pow2(w - 1);
      AddPower(n / 2, w - 1, k - 1);
    }
  }

  function FlipFirst(o: octet): octet {
    if o < 128 then o + 128 else o - 128
  }

  function FlipLast(o: octet): octet {
    if o % 2 == 0 then o + 1 else o - 1
  }

  lemma FirstFlipped(o: octet, k: nat)
    requires k <= 7
    ensures NumberBit(FlipFirst(o), k) != NumberBit(o, k) <==> k == 7
  {
    assert Pow2(4) == 16 && Pow2(7) == 128;
    if o < 128 {
      AddPower(o, 7, k);
    } else {
      AddPower(o - 128, 7, k);
    }
  }

  lemma LastFlipped(o: octet, k: nat)
    ensures NumberBit(FlipLast(o), k) != NumberBit(o, k) <==> k == 0
  {
    if k > 0 {
      assert FlipLast(o) / 2 == o / 2;
    }
  }

  /** `s` with the first bit of one octet and the last bit of a later one flipped. */
  function FlipTwo(s: octets, a: nat, b: nat): octets
    requires a < b < |s|
  {
    s[a := FlipFirst(s[a])][b := FlipLast(s[b])]
  }

  lemma TwoFlips(s: octets, a: nat, b: nat)
    requires a < b < |s|
    ensures FlippedBits(s, FlipTwo(s, a, b)) == {8 * a, 8 * b + 7}
  {
    var t := FlipTwo(s, a, b);
    forall p: nat | p < 8 * |s|
      ensures WireBit(s, p) != WireBit(t, p) <==> p == 8 * a || p == 8 * b + 7
    {
      var i, k := p / 8, 7 - p % 8;
      FirstFlipped(s[a], k);
      LastFlipped(s[b], k);
    }
  }

  predicate PairFlipped(s: octets, t: octets, i: nat, j: nat) {
    Corrupted(s, t) && i < j && Flips(s, t) == {i, j}
  }

  lemma OneOrder(i: nat)
    ensures (i + 32767 - i) % 32767 == 0
  {
  }

  lemma PairAccepted(s: octets, t: octets, i: nat, j: nat)
    requires Verified(s) && PairFlipped(s, t, i, j) && j == i + 32767
    ensures Verified(t)
  {
    OneOrder(i);
    DoubleErrorDiscarded(s, t, i, j);
  }

  lemma FlippedCopy(s: octets, a: nat, b: nat, n: nat, i: nat, j: nat) returns (t: octets)
    requires CarriesCrc(s) && n == DescribedLength(s) && FIXED_LEN <= a < b < n
    requires i == 8 * a && j == 8 * b + 7
    ensures PairFlipped(s, t, i, j)
  {
    t := FlipTwo(s, a, b);
    assert t[..FIXED_LEN] == s[..FIXED_LEN];
    assert t[..n] == FlipTwo(s[..n], a, b);
    TwoFlips(s[..n], a, b);
  }

  /** Every good PDU has damaged copies that are accepted, if it is long enough to hold
      two bits 32767 positions apart behind its fixed octets: bit `i` begins octet `a`. */
  lemma UndetectedPair(s: octets, a: nat, i: nat) returns (t: octets)
    requires CarriesCrc(s) && Verified(s)
    requires FIXED_LEN <= a && i == 8 * a && a + 4095 < DescribedLength(s)
    ensures PairFlipped(s, t, i, i + 32767) && Verified(t)
  {
    t := FlippedCopy(s, a, a + 4095, DescribedLength(s), i, i + 32767);
    PairAccepted(s, t, i, i + 32767);
  }
}
