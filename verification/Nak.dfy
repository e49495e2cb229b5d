/** The NAK PDU (src/cfdp_directive.c, section 5.2.6 of CCSDS 727.0-B-5). */
module Nak {
  import opened Octets
  import opened Endian
  import opened Header

  const DIRECTIVE_NAK: octet := 0x08
  const MAX_SEGMENT_REQUESTS: nat := 32

  datatype SegmentRequest = SegmentRequest(startOffset: uint64, endOffset: uint64)

  datatype NakPdu = NakPdu(startOfScope: uint64, endOfScope: uint64, requests: seq<SegmentRequest>)

  /** Octets per offset field. */
  type width = n: nat | n == 4 || n == 8 witness 4

  /** The octets that a number of offset pairs occupies. */
  function Span(count: nat, fs: width): nat {
    if fs == 8 then 16 * count else 8 * count
  }

  predicate Encodable(nak: NakPdu) {
    |nak.requests| <= MAX_SEGMENT_REQUESTS
  }

  function EncodePair(r: SegmentRequest, fs: width): (s: octets)
    ensures |s| == Span(1, fs)
  {
    BigEndian(r.startOffset, fs) + BigEndian(r.endOffset, fs)
  }

  function EncodeRequests(rs: seq<SegmentRequest>, fs: width): (s: octets)
    ensures |s| == Span(|rs|, fs)
  {
    if rs == [] then []
    else EncodeRequests(rs[..|rs| - 1], fs) + EncodePair(rs[|rs| - 1], fs)
  }

  function Scope(nak: NakPdu): SegmentRequest {
    SegmentRequest(nak.startOfScope, nak.endOfScope)
  }

  function EncodeScope(nak: NakPdu, fs: width): (s: octets)
    ensures |s| == 1 + Span(1, fs)
  {
    [DIRECTIVE_NAK] + EncodePair(Scope(nak), fs)
  }

  function Encode(nak: NakPdu, large: LargeFileFlag): (s: octets)
    ensures |s| == 1 + Span(1 + |nak.requests|, FileSizeOctets(large))
  {
    EncodeScope(nak, FileSizeOctets(large)) + EncodeRequests(nak.requests, FileSizeOctets(large))
  }

  /** Two consecutive cfdp_write_uint calls. */
  method AppendPair(buf: array<octet>, start: nat, pos: nat, r: SegmentRequest, fs: width,
                    ghost before: octets, ghost done: octets)
    requires |done| == pos && start + pos + Span(1, fs) <= buf.Length == |before|
    requires buf[..] == Splice(before, start, done)
    modifies buf
    ensures buf[..] == Splice(before, start, done + EncodePair(r, fs))
  {
    var a, b := r.startOffset, r.endOffset;
    AppendUint(buf, start, pos, a, fs, before, done);
    AppendUint(buf, start, pos + fs, b, fs, before, done + BigEndian(a, fs));
    assert done + BigEndian(a, fs) + BigEndian(b, fs) == done + EncodePair(r, fs);
  }

  /** The loop of cfdp_nak_serialize, behind the octets `scope` already written. */
  method AppendRequests(buf: array<octet>, start: nat, from: nat, rs: seq<SegmentRequest>, fs: width,
                        ghost before: octets, ghost scope: octets) returns (pos: nat)
    requires |scope| == from && start + from + Span(|rs|, fs) <= buf.Length == |before|
    requires buf[..] == Splice(before, start, scope)
    modifies buf
    ensures pos == from + Span(|rs|, fs)
    ensures buf[..] == Splice(before, start, scope + EncodeRequests(rs, fs))
  {
    pos := from;
    assert scope + EncodeRequests(rs[..0], fs) == scope;
    for i := 0 to |rs|
      invariant pos == from + Span(i, fs)
      invariant buf[..] == Splice(before, start, scope + EncodeRequests(rs[..i], fs))
    {
      AppendPair(buf, start, pos, rs[i], fs, before, scope + EncodeRequests(rs[..i], fs));
      RequestsStep(scope, rs, i, fs);
      pos := pos + 2 * fs;
    }
    assert rs[..|rs|] == rs;
  }

  lemma RequestsStep(scope: octets, rs: seq<SegmentRequest>, i: nat, fs: width)
    requires i < |rs|
    ensures scope + EncodeRequests(rs[..i + 1], fs) == scope + EncodeRequests(rs[..i], fs) + EncodePair(rs[i], fs)
  {
    assert rs[..i + 1][..i] == rs[..i];
  }

  /** cfdp_nak_serialize */
  method Serialize(nak: NakPdu, large: LargeFileFlag, buf: array<octet>, start: nat, cap: nat) returns (n: nat)
    requires start + cap <= buf.Length
    modifies buf
    ensures n == if Encodable(nak) && |Encode(nak, large)| <= cap then |Encode(nak, large)| else 0
    ensures buf[..] == if n > 0 then Splice(old(buf[..]), start, Encode(nak, large)) else old(buf[..])
  {
    if |nak.requests| > MAX_SEGMENT_REQUESTS {
      return 0;
    }
    var fs: width := FileSizeOctets(large);
    var pair := 2 * fs;
    var size := 1 + pair + |nak.requests| * pair;
    assert size == 1 + Span(1 + |nak.requests|, fs);
    if cap < size {
      return 0;
    }
    ghost var before := buf[..];
    Store(buf, start, DIRECTIVE_NAK);
    AppendPair(buf, start, 1, Scope(nak), fs, before, [DIRECTIVE_NAK]);
    n := AppendRequests(buf, start, 1 + pair, nak.requests, fs, before, EncodeScope(nak, fs));
  }

  // ---------------------------------------------------------------------------
  // Decoding
  // ---------------------------------------------------------------------------

  function DecodePair(s: octets, fs: width): SegmentRequest
    requires |s| == Span(1, fs)
  {
    SegmentRequest(ReadId(s[..fs]), ReadId(s[fs..]))
  }

  /** The pair that starts at octet `p`. */
  function PairAt(s: octets, p: nat, fs: width): SegmentRequest
    requires p + 2 * fs <= |s|
  {
    DecodePair(s[p..p + 2 * fs], fs)
  }

  /** The first `count` requests in `s`. */
  function DecodeRequests(s: octets, fs: width, count: nat): (rs: seq<SegmentRequest>)
    requires Span(count, fs) <= |s|
    ensures |rs| == count
    decreases count
  {
    if count == 0 then []
    else DecodeRequests(s, fs, count - 1) + [PairAt(s, Span(count - 1, fs), fs)]
  }

  function PairsIn(len: nat, fs: width): nat {
    if fs == 8 then len / 16 else len / 8
  }

  /** Whether `len` octets are a whole number of pairs, and not too many. */
  predicate WholePairs(len: nat, fs: width) {
    len == Span(PairsIn(len, fs), fs) && PairsIn(len, fs) <= MAX_SEGMENT_REQUESTS
  }

  lemma PairArithmetic(len: nat, fs: width)
    ensures len / (2 * fs) == PairsIn(len, fs)
    ensures len % (2 * fs) == 0 <==> len == Span(PairsIn(len, fs), fs)
  {
    if fs == 8 {
    } else {
    }
  }

  function Decode(s: octets, large: LargeFileFlag): Decoding<NakPdu> {
    var fs: width := FileSizeOctets(large);
    var pair := 2 * fs;
    if |s| < 1 + pair || s[0] != DIRECTIVE_NAK then Malformed
    else
      var scope, rest := PairAt(s, 1, fs), s[1 + pair..];
      if !WholePairs(|rest|, fs) then Malformed
      else Decoded(NakPdu(scope.startOffset, scope.endOffset, DecodeRequests(rest, fs, PairsIn(|rest|, fs))), |s|)
  }

  /** Two consecutive cfdp_read_uint calls from `&buf[p]` on. */
  method ReadPair(s: octets, p: nat, fs: width) returns (r: SegmentRequest)
    requires p + 2 * fs <= |s|
    ensures r == PairAt(s, p, fs)
  {
    PairHalves(s, p, fs);
    var a := ReadUint(s[p..], fs);
    var b := ReadUint(s[p + fs..], fs);
    r := SegmentRequest(a, b);
  }

  lemma PairHalves(s: octets, p: nat, fs: width)
    requires p + 2 * fs <= |s|
    ensures s[p..p + 2 * fs][..fs] == s[p..][..fs] && s[p..p + 2 * fs][fs..] == s[p + fs..][..fs]
  {
  }

  /** cfdp_nak_parse_segment_requests: 0 both for an error and for no requests. */
  method ParseSegmentRequests(s: octets, fs: width) returns (n: nat, requests: seq<SegmentRequest>)
    ensures n == if WholePairs(|s|, fs) then |s| else 0
    ensures WholePairs(|s|, fs) ==> requests == DecodeRequests(s, fs, PairsIn(|s|, fs))
  {
    requests := [];
    var pair := 2 * fs;
    var count := |s| / pair;
    PairArithmetic(|s|, fs);
    if |s| % pair != 0 || count > MAX_SEGMENT_REQUESTS {
      return 0, requests;
    }
    var pos := 0;
    for i := 0 to count
      invariant pos == Span(i, fs) <= |s|
      invariant requests == DecodeRequests(s, fs, i)
    {
      var r := ReadPair(s, pos, fs);
      requests := requests + [r];
      pos := pos + pair;
    }
    return pos, requests;
  }

  /** cfdp_nak_deserialize: no octets consumed by the requests is an error only when
      there were octets. */
  method Deserialize(s: octets, large: LargeFileFlag) returns (n: nat, nak: NakPdu)
    ensures Decode(s, large) == if n > 0 then Decoded(nak, n) else Malformed
  {
    nak := NakPdu(0, 0, []);
    var fs: width := FileSizeOctets(large);
    var pair := 2 * fs;
    if |s| < 1 + pair || s[0] != DIRECTIVE_NAK {
      return 0, nak;
    }
    var scope := ReadPair(s, 1, fs);
    var pos := 1 + pair;
    var m, requests := ParseSegmentRequests(s[pos..], fs);
    if m == 0 && |s| != pos {
      return 0, nak;
    }
    return pos + m, NakPdu(scope.startOffset, scope.endOffset, requests);
  }

  // ---------------------------------------------------------------------------
  // Exactness
  // ---------------------------------------------------------------------------

  function RequestOnTheWire(r: SegmentRequest, fs: width): SegmentRequest {
    SegmentRequest(LowOctets(r.startOffset, fs), LowOctets(r.endOffset, fs))
  }

  function RequestsOnTheWire(rs: seq<SegmentRequest>, fs: width): (w: seq<SegmentRequest>)
    ensures |w| == |rs|
  {
    if rs == [] then [] else RequestsOnTheWire(rs[..|rs| - 1], fs) + [RequestOnTheWire(rs[|rs| - 1], fs)]
  }

  /** What survives the wire: every offset in the chosen width. */
  function OnTheWire(nak: NakPdu, large: LargeFileFlag): NakPdu {
    var fs: width := FileSizeOctets(large);
    var scope := RequestOnTheWire(Scope(nak), fs);
    NakPdu(scope.startOffset, scope.endOffset, RequestsOnTheWire(nak.requests, fs))
  }

  lemma PairRoundTrip(r: SegmentRequest, fs: width)
    ensures DecodePair(EncodePair(r, fs), fs) == RequestOnTheWire(r, fs)
  {
    Parts(BigEndian(r.startOffset, fs), BigEndian(r.endOffset, fs), []);
    ReadOfWrite(r.startOffset, fs);
    ReadOfWrite(r.endOffset, fs);
  }

  lemma PairRestored(s: octets, fs: width)
    requires |s| == Span(1, fs)
    ensures EncodePair(DecodePair(s, fs), fs) == s
  {
    Rewritten(s[..fs], fs);
    Rewritten(s[fs..], fs);
  }

  lemma PairInside(front: octets, pair: octets, tail: octets, p: nat, fs: width)
    requires |front| == p && |pair| == 2 * fs
    ensures (front + pair + tail)[p..p + 2 * fs] == pair
  {
  }

  lemma {:induction false} RequestsRoundTrip(rs: seq<SegmentRequest>, tail: octets, fs: width)
    ensures DecodeRequests(EncodeRequests(rs, fs) + tail, fs, |rs|) == RequestsOnTheWire(rs, fs)
  {
    if rs != [] {
      var k := |rs| - 1;
      var front, pair := EncodeRequests(rs[..k], fs), EncodePair(rs[k], fs);
      RequestsRoundTrip(rs[..k], pair + tail, fs);
      Associate(front, pair, tail);
      PairInside(front, pair, tail, Span(k, fs), fs);
      PairRoundTrip(rs[k], fs);
    }
  }

  lemma AllRequestsRoundTrip(rs: seq<SegmentRequest>, fs: width)
    ensures var s := EncodeRequests(rs, fs);
            PairsIn(|s|, fs) == |rs| && DecodeRequests(s, fs, |rs|) == RequestsOnTheWire(rs, fs)
  {
    RequestsRoundTrip(rs, [], fs);
    assert EncodeRequests(rs, fs) + [] == EncodeRequests(rs, fs);
  }

  lemma OneMore(rs: seq<SegmentRequest>, r: SegmentRequest, fs: width)
    ensures EncodeRequests(rs + [r], fs) == EncodeRequests(rs, fs) + EncodePair(r, fs)
  {
    assert (rs + [r])[..|rs|] == rs;
  }

  lemma PairAtRestored(s: octets, p: nat, q: nat, fs: width)
    requires q == p + 2 * fs <= |s|
    ensures EncodePair(PairAt(s, p, fs), fs) == s[p..q]
  {
    PairRestored(s[p..q], fs);
  }

  lemma RewrittenStep(s: octets, fs: width, rs: seq<SegmentRequest>, r: SegmentRequest, p: nat, q: nat)
    requires p <= q <= |s| && EncodeRequests(rs, fs) == s[..p] && EncodePair(r, fs) == s[p..q]
    ensures EncodeRequests(rs + [r], fs) == s[..q]
  {
    OneMore(rs, r, fs);
    Adjacent(s, p, q);
  }

  /** The requests read from the front of `s` re-encode to it. */
  lemma {:induction false} RequestsRewritten(s: octets, fs: width, count: nat, q: nat)
    requires q == Span(count, fs) <= |s|
    ensures EncodeRequests(DecodeRequests(s, fs, count), fs) == s[..q]
    decreases count
  {
    if count > 0 {
      var p := Span(count - 1, fs);
      RequestsRewritten(s, fs, count - 1, p);
      PairAtRestored(s, p, q, fs);
      RewrittenStep(s, fs, DecodeRequests(s, fs, count - 1), PairAt(s, p, fs), p, q);
    }
  }

  lemma EncodedParts(nak: NakPdu, fs: width)
    ensures var s := EncodeScope(nak, fs) + EncodeRequests(nak.requests, fs);
            && s[0] == DIRECTIVE_NAK
            && s[1..1 + 2 * fs] == EncodePair(Scope(nak), fs)
            && s[1 + 2 * fs..] == EncodeRequests(nak.requests, fs)
  {
    Parts([DIRECTIVE_NAK], EncodePair(Scope(nak), fs), EncodeRequests(nak.requests, fs));
  }

  /** Decoding what was encoded returns the NAK as it is on the wire and uses every octet. */
  lemma DecodeOfEncode(nak: NakPdu, large: LargeFileFlag)
    requires Encodable(nak)
    ensures Decode(Encode(nak, large), large) == Decoded(OnTheWire(nak, large), |Encode(nak, large)|)
  {
    var fs: width := FileSizeOctets(large);
    EncodedParts(nak, fs);
    PairRoundTrip(Scope(nak), fs);
    AllRequestsRoundTrip(nak.requests, fs);
  }

  lemma AllRewritten(rest: octets, fs: width)
    requires |rest| == Span(PairsIn(|rest|, fs), fs)
    ensures EncodeRequests(DecodeRequests(rest, fs, PairsIn(|rest|, fs)), fs) == rest
  {
    RequestsRewritten(rest, fs, PairsIn(|rest|, fs), |rest|);
    assert rest[..|rest|] == rest;
  }

  lemma FieldsRestored(s: octets, fs: width, scope: SegmentRequest, rest: octets)
    requires |s| >= 1 + 2 * fs && s[0] == DIRECTIVE_NAK
    requires scope == PairAt(s, 1, fs) && rest == s[1 + 2 * fs..]
    ensures s == [DIRECTIVE_NAK] + EncodePair(scope, fs) + rest
  {
    PairAtRestored(s, 1, 1 + 2 * fs, fs);
    CodeFirst(s, 1 + 2 * fs);
  }

  lemma CodeFirst(s: octets, i: nat)
    requires 1 <= i <= |s| && s[0] == DIRECTIVE_NAK
    ensures s == [DIRECTIVE_NAK] + s[1..i] + s[i..]
  {
  }

  /** Every accepted data field re-encodes to exactly its octets, all of which were used. */
  lemma EncodeOfDecode(s: octets, large: LargeFileFlag)
    requires Decode(s, large).Decoded?
    ensures var nak := Decode(s, large).value;
            && Encodable(nak) && OnTheWire(nak, large) == nak
            && Encode(nak, large) == s && Decode(s, large).consumed == |s|
  {
    var nak, fs: width := Decode(s, large).value, FileSizeOctets(large);
    AllRewritten(s[1 + 2 * fs..], fs);
    FieldsRestored(s, fs, Scope(nak), s[1 + 2 * fs..]);
    DecodeOfEncode(nak, large);
  }

  /** Section 5.2.6: a data field is accepted exactly when it starts with the NAK code
      and the octets after it are 1 to 33 offset pairs: the scope and up to 32 requests. */
  lemma AcceptedLanguage(s: octets, large: LargeFileFlag)
    ensures Decode(s, large).Decoded? <==>
            |s| > 0 && s[0] == DIRECTIVE_NAK
            && exists k: nat :: 1 <= k <= 1 + MAX_SEGMENT_REQUESTS && |s| == 1 + Span(k, FileSizeOctets(large))
  {
    var fs: width := FileSizeOctets(large);
    if Decode(s, large).Decoded? {
      assert |s| == 1 + Span(PairsIn(|s| - 1 - 2 * fs, fs) + 1, fs);
    }
  }
}
