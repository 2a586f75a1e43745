/** Encoding of a frame as report content, and that both decoders undo it. */
module HeatEncoding {
  import opened HeatFormat
  import opened HeatSpec

  /** A heat section with these bytes of blocks. */
  ghost function HeatAround(payload: seq<byte>): (e: seq<byte>)
    requires |payload| + 8 < 0x1_0000_0000
    ensures |e| == |payload| + 8
  {
    Le32(|payload| + 8) + Le16(HEAT_SECTION) + [1, 8] + payload
  }

  ghost predicate Words(v: seq<nat>) {
    forall i | 0 <= i < |v| :: v[i] < 0x1_0000
  }

  /** Each bin takes two bytes and two more that nobody reads. */
  ghost function EncodeBins(v: seq<nat>): (e: seq<byte>)
    requires Words(v)
    ensures |e| == 4 * |v|
  {
    if v == [] then [] else EncodeBins(v[..|v| - 1]) + (Le16(v[|v| - 1]) + [0, 0])
  }

  /** A metadata section with one noise record. */
  ghost function EncodeMetadata(v: seq<nat>): (e: seq<byte>)
    requires Words(v) && |v| <= NSR_BINS
    ensures |e| == 15 + 4 * |v|
  {
    [15 + 4 * |v|, 0, 0, 0, 0, 255, 0, 4, 0, 4 + 4 * |v|, 0, |v|, 0, 0, 0] + EncodeBins(v)
  }

  ghost predicate Sendable(noise: Noise) {
    noise.Bins? ==> Words(noise.values) && |noise.values| <= NSR_BINS
  }

  ghost function EncodeNoise(noise: Noise): (e: seq<byte>)
    requires Sendable(noise)
    ensures |e| <= 79
  {
    if noise.Bins? then EncodeMetadata(noise.values) else []
  }

  /** Report content: the header, what comes first, and the heat section. */
  ghost function Content(scan: nat, first: seq<byte>, payload: seq<byte>): seq<byte>
    requires scan < 0x1_0000 && |first| + |payload| + 15 < 0x1_0000_0000
  {
    Le16(scan) + Le32(|first| + |payload| + 15) + [0, 0, 0] + (first + HeatAround(payload))
  }

  /** Report content with the noise bins, when there are any, and the blocks. */
  ghost function EncodeReport(scan: nat, noise: Noise, blocks: seq<Block>): seq<byte>
    requires scan < 0x1_0000 && Sendable(noise) && Encodable(blocks) && |EncodeBlocks(blocks)| + 94 < 0x1_0000_0000
  {
    Content(scan, EncodeNoise(noise), EncodeBlocks(blocks))
  }

  // ----- the parts read back

  lemma U16At(b: seq<byte>, i: nat, x: nat)
    requires x < 0x1_0000 && i + 2 <= |b| && b[i..i + 2] == Le16(x)
    ensures U16(b, i) == x
  {}

  /** A part of a part. */
  lemma Within(b: seq<byte>, at: nat, part: seq<byte>, lo: nat, hi: nat)
    requires PartAt(b, at, part) && lo <= hi <= |part|
    ensures PartAt(b, at + lo, part[lo..hi])
  {
    forall i | lo <= i < hi
      ensures part[i] == b[at + i]
    {
      assert b[at..at + |part|][i] == b[at + i];
    }
  }

  lemma TwoParts(b: seq<byte>, at: nat, p: seq<byte>, q: seq<byte>)
    requires PartAt(b, at, p + q)
    ensures PartAt(b, at, p) && PartAt(b, at + |p|, q)
  {
    assert (p + q)[0..|p|] == p && (p + q)[|p|..|p + q|] == q;
    Within(b, at, p + q, 0, |p|);
    Within(b, at, p + q, |p|, |p + q|);
  }

  lemma LastBin(b: seq<byte>, at: nat, v: seq<nat>, n: nat)
    requires |v| == n + 1 && Words(v) && PartAt(b, at, EncodeBins(v))
    ensures PartAt(b, at, EncodeBins(v[..n])) && U16(b, at + 4 * n) == v[n]
  {
    TwoParts(b, at, EncodeBins(v[..n]), Le16(v[n]) + [0, 0]);
    TwoParts(b, at + 4 * n, Le16(v[n]), [0, 0]);
    U16At(b, at + 4 * n, v[n]);
  }

  lemma {:induction false} BinsAt(b: seq<byte>, at: nat, v: seq<nat>)
    requires Words(v) && PartAt(b, at, EncodeBins(v))
    ensures forall i | 0 <= i < |v| :: U16(b, at + 4 * i) == v[i]
  {
    if v != [] {
      var n := |v| - 1;
      LastBin(b, at, v, n);
      BinsAt(b, at, v[..n]);
      forall i | 0 <= i < |v|
        ensures U16(b, at + 4 * i) == v[i]
      {
        assert i < n ==> v[..n][i] == v[i];
      }
    }
  }

  lemma BinsRead(b: seq<byte>, at: nat, v: seq<nat>)
    requires |v| <= NSR_BINS && Words(v) && at + 4 + 4 * |v| <= |b|
    requires b[at] == |v| && PartAt(b, at + 4, EncodeBins(v))
    ensures BinsOf(b, Record(NSR_RECORD, at, 4 + 4 * |v|)) == v
  {
    BinsAt(b, at + 4, v);
    var got := BinsOf(b, Record(NSR_RECORD, at, 4 + 4 * |v|));
    assert forall i | 0 <= i < |v| :: got[i] == U16(b, at + 4 + 4 * i);
  }

  lemma RecordReads(b: seq<byte>, pos: nat, end: nat, v: seq<nat>)
    requires |v| <= NSR_BINS && Words(v) && pos + 8 + 4 * |v| == end <= |b|
    requires b[pos] == 4 && b[pos + 2] == 4 + 4 * |v| && b[pos + 3] == 0
    requires b[pos + 4] == |v| && PartAt(b, pos + 8, EncodeBins(v))
    ensures NoiseFrom(b, pos, end, Unknown) == Some(Bins(v))
  {
    BinsRead(b, pos + 4, v);
    assert RecordAt(b, pos, end) == Some(Record(NSR_RECORD, pos + 4, 4 + 4 * |v|));
    assert NoiseFrom(b, end, end, Bins(v)) == Some(Bins(v));
  }

  lemma MetadataReads(b: seq<byte>, v: seq<nat>)
    requires |v| <= NSR_BINS && Words(v) && PartAt(b, 9, EncodeMetadata(v)) && 24 + 4 * |v| < |b|
    ensures NoiseFirst(b, 15 + 4 * |v|, Bins(v))
  {
    var e := EncodeMetadata(v);
    assert e[15..|e|] == EncodeBins(v);
    assert U16(e, 4) == METADATA_SECTION;
    SmallSection(b, 9, |b|, e);
    Within(b, 9, e, 15, |e|);
    RecordReads(b, 16, 24 + 4 * |v|, v);
  }

  /** A heat section with this payload, at the end of the content. */
  ghost predicate PayloadLast(b: seq<byte>, at: nat, payload: seq<byte>) {
    && at + 8 + |payload| == |b| && SectionAt(b, at, |b|) == Some(Section(at, |b| - at, HEAT_SECTION))
    && b[at + 6] == 1 && b[at + 7] == 8 && b[at + 8..|b|] == payload
  }

  lemma PayloadReads(b: seq<byte>, at: nat, payload: seq<byte>)
    requires |payload| + 8 < 0x1_0000_0000 && PartAt(b, at, HeatAround(payload)) && at + 8 + |payload| == |b|
    ensures PayloadLast(b, at, payload)
  {
    var e := HeatAround(payload);
    Concatenated(Le32(|e|), Le16(HEAT_SECTION), [1, 8], payload);
    Within(b, at, e, 0, 4);
    Within(b, at, e, 4, 6);
    Within(b, at, e, 6, 8);
    Within(b, at, e, 8, |e|);
    U32At(b, at, |e|);
    U16At(b, at + 4, HEAT_SECTION);
    assert b[at + 6] == b[at + 6..at + 8][0] && b[at + 7] == b[at + 6..at + 8][1];
  }

  lemma Concatenated(p: seq<byte>, q: seq<byte>, r: seq<byte>, s: seq<byte>)
    requires |p| == 4 && |q| == |r| == 2
    ensures var e := p + q + r + s; e[0..4] == p && e[4..6] == q && e[6..8] == r && e[8..|e|] == s
  {}

  lemma AllParsed(b: seq<byte>, pos: nat, end: nat, blocks: seq<Block>)
    requires Encodable(blocks) && pos <= end <= |b| && b[pos..end] == EncodeBlocks(blocks)
    ensures ParseBlocks(b, pos, end, []) == Some(blocks)
  {
    BlocksRoundTrip(blocks, b, pos, end, []);
    assert [] + blocks == blocks;
  }

  lemma HeaderDecides(b: seq<byte>, s: Section, r: Option<seq<Block>>, n: nat)
    requires Fits(s, b) && b[s.at + 6] == 1 && b[s.at + 7] == 8 && ParseBlocks(b, s.at + 8, s.at + s.len, []) == r
    ensures HeatGrid(b, s, n) == GridOf(r, n)
  {}

  lemma GridOfCut(blocks: seq<Block>, g: seq<byte>)
    requires CutFrom(blocks, g)
    ensures GridOf(Some(blocks), |g|) == Some(g)
  {
    PaintOfCut(blocks, g);
  }

  lemma HeatReads(b: seq<byte>, at: nat, blocks: seq<Block>, g: seq<byte>)
    requires Encodable(blocks) && PayloadLast(b, at, EncodeBlocks(blocks)) && CutFrom(blocks, g)
    ensures HeatLast(b, at, g)
  {
    var r := ParseBlocks(b, at + 8, |b|, []);
    HeaderDecides(b, Section(at, |b| - at, HEAT_SECTION), r, |g|);
    AllParsed(b, at + 8, |b|, blocks);
    GridOfCut(blocks, g);
  }

  lemma HeaderReads(scan: nat, body: seq<byte>, b: seq<byte>)
    requires scan < 0x1_0000 && |body| + 7 < 0x1_0000_0000
    requires b == Le16(scan) + Le32(|body| + 7) + [0, 0, 0] + body
    ensures |b| == 9 + |body| && PartAt(b, 9, body) && ContainerEnd(b) == Some(|b|)
  {
    assert b[2..6] == Le32(|body| + 7);
    U32At(b, 2, |body| + 7);
  }

  // ----- the sections read back

  /** A metadata section with this outcome at the front of the sections. */
  ghost predicate NoiseFirst(b: seq<byte>, len: nat, noise: Noise) {
    && 9 + len < |b| && SectionAt(b, 9, |b|) == Some(Section(9, len, METADATA_SECTION))
    && len >= 8 && NoiseFrom(b, 16, 9 + len, Unknown) == Some(noise)
  }

  /** A heat section with this grid at the end of the content. */
  ghost predicate HeatLast(b: seq<byte>, at: nat, g: seq<byte>) {
    && at < |b| && SectionAt(b, at, |b|) == Some(Section(at, |b| - at, HEAT_SECTION))
    && HeatGrid(b, Section(at, |b| - at, HEAT_SECTION), |g|) == Some(g)
  }

  lemma SingleHeat(b: seq<byte>, g: seq<byte>)
    requires ContainerEnd(b) == Some(|b|) && HeatLast(b, 9, g)
    ensures KernelDecode(b, |g|) == OracleDecode(b, |g|) == Some((g, Unknown))
  {
    var h := Section(9, |b| - 9, HEAT_SECTION);
    assert [h] + [] == [h];
    WalkStep(b, 9, |b|, h, []);
    OnlySection(h, METADATA_SECTION);
    OnlySection(h, HEAT_SECTION);
    DecodersAgreeExactly(b, |g|);
  }

  lemma TwoSections(b: seq<byte>, len: nat, noise: Noise, g: seq<byte>) returns (m: Section, h: Section)
    requires NoiseFirst(b, len, noise) && HeatLast(b, 9 + len, g)
    ensures m == Section(9, len, METADATA_SECTION) && h == Section(9 + len, |b| - 9 - len, HEAT_SECTION)
    ensures Fits(m, b) && Fits(h, b) && Walk(b, 9, |b|) == Some([m] + [h])
  {
    m, h := Section(9, len, METADATA_SECTION), Section(9 + len, |b| - 9 - len, HEAT_SECTION);
    WalkTwo(b, 9, |b|, m, h);
  }

  lemma FoldIsKernel(b: seq<byte>, ss: seq<Section>, noise: Noise, g: seq<byte>)
    requires ContainerEnd(b) == Some(|b|) && Walk(b, 9, |b|) == Some(ss)
    requires Fold(b, ss, |g|, Progress(None, Unknown)) == Some(Progress(Some(g), noise))
    ensures KernelDecode(b, |g|) == Some((g, noise))
  {
    KernelFromIsFold(b, 9, |b|, |g|, Progress(None, Unknown));
  }

  lemma KernelReads(b: seq<byte>, len: nat, noise: Noise, g: seq<byte>)
    requires ContainerEnd(b) == Some(|b|) && NoiseFirst(b, len, noise) && HeatLast(b, 9 + len, g)
    ensures KernelDecode(b, |g|) == Some((g, noise))
  {
    var m, h := TwoSections(b, len, noise, g);
    LastTwoRead(b, m, h, |g|, noise, g);
    FoldIsKernel(b, [m] + [h], noise, g);
  }

  lemma OracleReads(b: seq<byte>, len: nat, noise: Noise, g: seq<byte>)
    requires ContainerEnd(b) == Some(|b|) && NoiseFirst(b, len, noise) && HeatLast(b, 9 + len, g)
    ensures OracleDecode(b, |g|) == Some((g, noise))
  {
    var m, h := TwoSections(b, len, noise, g);
    MetadataStep(b, m, Unknown);
    SkipFirst(m, [h], METADATA_SECTION);
    SkipFirst(m, [h], HEAT_SECTION);
    OnlySection(h, HEAT_SECTION);
  }

  /** Decoding any encoder's tiling of a grid returns the grid, and the noise
      bins when it sends them. */
  lemma RoundTrip(scan: nat, noise: Noise, blocks: seq<Block>, g: seq<byte>)
    requires scan < 0x1_0000 && Sendable(noise) && Encodable(blocks) && |EncodeBlocks(blocks)| + 94 < 0x1_0000_0000
    requires CutFrom(blocks, g)
    ensures KernelDecode(EncodeReport(scan, noise, blocks), |g|) == Some((g, noise))
    ensures OracleDecode(EncodeReport(scan, noise, blocks), |g|) == Some((g, noise))
  {
    var first, payload := EncodeNoise(noise), EncodeBlocks(blocks);
    var b := Content(scan, first, payload);
    NoiseOf(scan, noise, payload, b);
    BlocksOf(b, |first|, noise, blocks, g);
  }

  /** The noise first, in len bytes, and the payload last. */
  ghost predicate Framed(b: seq<byte>, len: nat, noise: Noise, payload: seq<byte>) {
    && ContainerEnd(b) == Some(|b|) && PayloadLast(b, 9 + len, payload)
    && if noise.Bins? then NoiseFirst(b, len, noise) else len == 0
  }

  lemma NoiseOf(scan: nat, noise: Noise, payload: seq<byte>, b: seq<byte>)
    requires scan < 0x1_0000 && Sendable(noise) && |payload| + 94 < 0x1_0000_0000
    requires b == Content(scan, EncodeNoise(noise), payload)
    ensures Framed(b, |EncodeNoise(noise)|, noise, payload)
  {
    ContentReads(scan, EncodeNoise(noise), payload, b);
    NoiseReads(b, noise);
  }

  lemma BlocksOf(b: seq<byte>, len: nat, noise: Noise, blocks: seq<Block>, g: seq<byte>)
    requires Encodable(blocks) && Framed(b, len, noise, EncodeBlocks(blocks)) && CutFrom(blocks, g)
    ensures KernelDecode(b, |g|) == OracleDecode(b, |g|) == Some((g, noise))
  {
    HeatReads(b, 9 + len, blocks, g);
    SectionsRead(b, len, noise, g);
  }

  lemma ContentReads(scan: nat, first: seq<byte>, payload: seq<byte>, b: seq<byte>)
    requires scan < 0x1_0000 && |first| + |payload| + 15 < 0x1_0000_0000 && b == Content(scan, first, payload)
    ensures ContainerEnd(b) == Some(|b|) && PartAt(b, 9, first) && PayloadLast(b, 9 + |first|, payload)
  {
    HeaderReads(scan, first + HeatAround(payload), b);
    TwoParts(b, 9, first, HeatAround(payload));
    PayloadReads(b, 9 + |first|, payload);
  }

  lemma NoiseReads(b: seq<byte>, noise: Noise)
    requires Sendable(noise) && PartAt(b, 9, EncodeNoise(noise)) && 9 + |EncodeNoise(noise)| < |b|
    ensures if noise.Bins? then NoiseFirst(b, |EncodeNoise(noise)|, noise) else |EncodeNoise(noise)| == 0
  {
    if noise.Bins? {
      MetadataReads(b, noise.values);
    }
  }

  lemma SectionsRead(b: seq<byte>, len: nat, noise: Noise, g: seq<byte>)
    requires ContainerEnd(b) == Some(|b|) && HeatLast(b, 9 + len, g)
    requires if noise.Bins? then NoiseFirst(b, len, noise) else len == 0
    ensures KernelDecode(b, |g|) == OracleDecode(b, |g|) == Some((g, noise))
  {
    if noise.Bins? {
      KernelReads(b, len, noise, g);
      OracleReads(b, len, noise, g);
    } else {
      SingleHeat(b, g);
    }
  }
}
