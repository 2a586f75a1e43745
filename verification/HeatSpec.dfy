/** Which Heat reports are accepted and what they decode to, once as the
    driver folds over the sections and once as the offline decoder picks them. */
module HeatSpec {
  import opened HeatFormat

  const HEAT_SECTION: nat := 0x0100
  const METADATA_SECTION: nat := 0xff00
  const NSR_RECORD: nat := 4
  const NSR_BINS: nat := 16

  /** Noise bins of a frame, when its metadata carries them. */
  datatype Noise = Unknown | Bins(values: seq<nat>)

  // ----- sections

  datatype Section = Section(at: nat, len: nat, kind: nat)

  ghost predicate Fits(s: Section, b: seq<byte>) {
    s.len >= 8 && s.at + s.len <= |b|
  }

  ghost function SectionAt(b: seq<byte>, offset: nat, end: nat): (s: Option<Section>)
    requires offset < end <= |b|
    ensures s.Some? ==> Fits(s.value, b) && s.value.at == offset && offset + s.value.len <= end
  {
    if end - offset < 8 || U32(b, offset) < 8 || U32(b, offset) > end - offset then None
    else Some(Section(offset, U32(b, offset), U16(b, offset + 4)))
  }

  ghost function Walk(b: seq<byte>, offset: nat, end: nat): (r: Option<seq<Section>>)
    requires offset <= end <= |b|
    ensures r.Some? ==> forall s | s in r.value :: Fits(s, b)
    decreases end - offset
  {
    if offset == end then Some([])
    else match SectionAt(b, offset, end)
      case None => None
      case Some(s) =>
        match Walk(b, offset + s.len, end)
        case None => None
        case Some(rest) => Some([s] + rest)
  }

  // ----- one heat section

  /** The blocks of a heat section, or None when its header or a block is malformed. */
  ghost function HeatBlocks(b: seq<byte>, s: Section): Option<seq<Block>>
    requires Fits(s, b)
  {
    if b[s.at + 6] != 1 || b[s.at + 7] != 8 then None else ParseBlocks(b, s.at + 8, s.at + s.len, [])
  }

  /** The grid the blocks tile. */
  ghost function GridOf(blocks: Option<seq<Block>>, n: nat): (r: Option<seq<byte>>)
    ensures r.Some? ==> |r.value| == n
  {
    if blocks.Some? && Tiles(blocks.value, n) then Some(Paint(blocks.value, n)) else None
  }

  ghost function HeatGrid(b: seq<byte>, s: Section, n: nat): (r: Option<seq<byte>>)
    requires Fits(s, b)
    ensures r.Some? ==> |r.value| == n
  {
    GridOf(HeatBlocks(b, s), n)
  }

  // ----- metadata records

  datatype Record = Record(kind: nat, at: nat, len: nat)

  ghost predicate RecordFits(r: Record, b: seq<byte>) {
    r.at + r.len <= |b|
  }

  function RecordAt(b: seq<byte>, pos: nat, end: nat): (r: Option<Record>)
    requires pos < end <= |b|
    ensures r.Some? ==> RecordFits(r.value, b) && r.value.at == pos + 4 && r.value.at + r.value.len <= end
  {
    if end - pos < 4 || U16(b, pos + 2) > end - pos - 4 then None
    else Some(Record(b[pos], pos + 4, U16(b, pos + 2)))
  }

  function Records(b: seq<byte>, pos: nat, end: nat): (r: Option<seq<Record>>)
    requires pos <= end <= |b|
    ensures r.Some? ==> forall x | x in r.value :: RecordFits(x, b)
    decreases end - pos
  {
    if pos == end then Some([])
    else match RecordAt(b, pos, end)
      case None => None
      case Some(r) =>
        match Records(b, r.at + r.len, end)
        case None => None
        case Some(rest) => Some([r] + rest)
  }

  /** A record of noise bins is a count, three bytes, and four bytes a bin. */
  predicate GoodBins(b: seq<byte>, r: Record)
    requires RecordFits(r, b)
  {
    r.len >= 4 && b[r.at] as int <= NSR_BINS && 4 + 4 * (b[r.at] as int) <= r.len
  }

  function BinsOf(b: seq<byte>, r: Record): (v: seq<nat>)
    requires RecordFits(r, b) && GoodBins(b, r)
    ensures |v| == b[r.at] as int
  {
    seq(b[r.at] as int, i requires 0 <= i < b[r.at] as int => U16(b, r.at + 4 + 4 * i))
  }

  /** The driver's pass: a second noise record, in this or an earlier section, is an error. */
  ghost function NoiseFrom(b: seq<byte>, pos: nat, end: nat, noise: Noise): Option<Noise>
    requires pos <= end <= |b|
    decreases end - pos
  {
    if pos == end then Some(noise)
    else match RecordAt(b, pos, end)
      case None => None
      case Some(r) =>
        if r.kind != NSR_RECORD then NoiseFrom(b, r.at + r.len, end, noise)
        else if noise.Bins? || !GoodBins(b, r) then None
        else NoiseFrom(b, r.at + r.len, end, Bins(BinsOf(b, r)))
  }

  /** The decoder's pass: all records first, then at most one noise record. */
  function NoiseRecords(rs: seq<Record>): seq<Record> {
    if rs == [] then [] else (if rs[0].kind == NSR_RECORD then [rs[0]] else []) + NoiseRecords(rs[1..])
  }

  lemma NoiseRecordsAreRecords(rs: seq<Record>)
    ensures forall r | r in NoiseRecords(rs) :: r in rs
  {}

  function OracleNoise(b: seq<byte>, s: Section): Option<Noise>
    requires Fits(s, b)
  {
    match Records(b, s.at + 7, s.at + s.len)
    case None => None
    case Some(rs) =>
      var ms := NoiseRecords(rs);
      NoiseRecordsAreRecords(rs);
      if ms == [] then Some(Unknown)
      else if |ms| > 1 || !GoodBins(b, ms[0]) then None
      else Some(Bins(BinsOf(b, ms[0])))
  }

  lemma {:induction false} NoiseFromRecords(b: seq<byte>, pos: nat, end: nat, noise: Noise)
    requires pos <= end <= |b|
    ensures var rs := Records(b, pos, end);
            NoiseFrom(b, pos, end, noise) ==
            if rs.None? then None
            else
              var ms := NoiseRecords(rs.value);
              if ms == [] then Some(noise)
              else if noise.Bins? || |ms| > 1 || !RecordFits(ms[0], b) || !GoodBins(b, ms[0]) then None
              else Some(Bins(BinsOf(b, ms[0])))
    decreases end - pos
  {
    if pos < end {
      var r := RecordAt(b, pos, end);
      if r.Some? {
        var next := r.value.at + r.value.len;
        var rest := Records(b, next, end);
        if rest.Some? {
          assert ([r.value] + rest.value)[1..] == rest.value;
        }
        NoiseFromRecords(b, next, end, noise);
        if r.value.kind == NSR_RECORD && noise.Unknown? && GoodBins(b, r.value) {
          NoiseFromRecords(b, next, end, Bins(BinsOf(b, r.value)));
        }
      }
    }
  }

  // ----- the driver's fold over sections

  /** What the driver has found so far. */
  datatype Progress = Progress(found: Option<seq<byte>>, noise: Noise)

  ghost function Handle(b: seq<byte>, s: Section, n: nat, st: Progress): Option<Progress>
    requires Fits(s, b)
  {
    if s.kind == METADATA_SECTION then
      match NoiseFrom(b, s.at + 7, s.at + s.len, st.noise)
      case None => None
      case Some(noise) => Some(st.(noise := noise))
    else if s.kind != HEAT_SECTION then Some(st)
    else if st.found.Some? then None
    else match HeatGrid(b, s, n)
      case None => None
      case Some(g) => Some(st.(found := Some(g)))
  }

  ghost function KernelFrom(b: seq<byte>, offset: nat, end: nat, n: nat, st: Progress): Option<Progress>
    requires offset <= end <= |b|
    decreases end - offset
  {
    if offset == end then Some(st)
    else match SectionAt(b, offset, end)
      case None => None
      case Some(s) =>
        match Handle(b, s, n, st)
        case None => None
        case Some(st') => KernelFrom(b, offset + s.len, end, n, st')
  }

  ghost function Fold(b: seq<byte>, ss: seq<Section>, n: nat, st: Progress): Option<Progress>
    requires forall s | s in ss :: Fits(s, b)
  {
    if ss == [] then Some(st)
    else match Handle(b, ss[0], n, st)
      case None => None
      case Some(st') => Fold(b, ss[1..], n, st')
  }

  lemma {:induction false} KernelFromIsFold(b: seq<byte>, offset: nat, end: nat, n: nat, st: Progress)
    requires offset <= end <= |b|
    ensures var ss := Walk(b, offset, end);
            KernelFrom(b, offset, end, n, st) == if ss.None? then None else Fold(b, ss.value, n, st)
    decreases end - offset
  {
    if offset < end {
      var s := SectionAt(b, offset, end);
      if s.Some? {
        var rest := Walk(b, offset + s.value.len, end);
        if rest.Some? {
          assert ([s.value] + rest.value)[1..] == rest.value;
        }
        var st' := Handle(b, s.value, n, st);
        if st'.Some? {
          KernelFromIsFold(b, offset + s.value.len, end, n, st'.value);
        }
      }
    }
  }

  /** End of the container, or None when its length does not fit the content. */
  ghost function ContainerEnd(b: seq<byte>): (r: Option<nat>)
    ensures r.Some? ==> 9 <= r.value <= |b|
  {
    if |b| < 9 || U32(b, 2) < 7 || U32(b, 2) > |b| - 2 then None else Some(2 + U32(b, 2))
  }

  /** g6ts_extract_heatmap on report content. */
  ghost function KernelDecode(b: seq<byte>, n: nat): Option<(seq<byte>, Noise)> {
    match ContainerEnd(b)
    case None => None
    case Some(end) =>
      match KernelFrom(b, 9, end, n, Progress(None, Unknown))
      case None => None
      case Some(st) => if st.found.Some? then Some((st.found.value, st.noise)) else None
  }

  /** What g6ts_extract_heatmap returns: success, -EMSGSIZE, -EPROTO or -ENOENT. */
  datatype Status = Success | MessageSize | Protocol | NoEntry

  ghost function StatusOf(b: seq<byte>, n: nat): Status {
    if |b| < 9 then MessageSize
    else match ContainerEnd(b)
      case None => Protocol
      case Some(end) =>
        match KernelFrom(b, 9, end, n, Progress(None, Unknown))
        case None => Protocol
        case Some(st) => if st.found.Some? then Success else NoEntry
  }

  // ----- the decoder's choice of sections

  function FirstOf(ss: seq<Section>, kind: nat): (r: Option<Section>)
    ensures r.Some? ==> r.value in ss
  {
    if ss == [] then None else if ss[0].kind == kind then Some(ss[0]) else FirstOf(ss[1..], kind)
  }

  ghost function CountKind(ss: seq<Section>, kind: nat): nat {
    if ss == [] then 0 else (if ss[0].kind == kind then 1 else 0) + CountKind(ss[1..], kind)
  }

  /** parse_sections, extract_nsr_bins and extract_heatmap together. */
  ghost function OracleDecode(b: seq<byte>, n: nat): Option<(seq<byte>, Noise)> {
    match ContainerEnd(b)
    case None => None
    case Some(end) =>
      match Walk(b, 9, end)
      case None => None
      case Some(ss) => OracleSections(b, ss, n)
  }

  ghost function OracleSections(b: seq<byte>, ss: seq<Section>, n: nat): Option<(seq<byte>, Noise)>
    requires forall s | s in ss :: Fits(s, b)
  {
    var m, h := FirstOf(ss, METADATA_SECTION), FirstOf(ss, HEAT_SECTION);
    var noise := if m.None? then Some(Unknown) else OracleNoise(b, m.value);
    if noise.None? || h.None? then None
    else match HeatGrid(b, h.value, n)
      case None => None
      case Some(g) => Some((g, noise.value))
  }

  // ----- when the two agree

  /** The metadata sections after the first parse and carry no noise record;
      seen says that the first has gone by already. */
  ghost predicate LaterQuiet(b: seq<byte>, ss: seq<Section>, seen: bool)
    requires forall s | s in ss :: Fits(s, b)
  {
    ss == [] ||
    if ss[0].kind != METADATA_SECTION then LaterQuiet(b, ss[1..], seen)
    else (seen ==> OracleNoise(b, ss[0]) == Some(Unknown)) && LaterQuiet(b, ss[1..], true)
  }

  /** What the decoder makes of the sections still to come, given what is known
      already: a section found or seen before hides later ones of its kind. */
  ghost function Chosen(b: seq<byte>, ss: seq<Section>, n: nat, st: Progress, seen: bool): Option<Progress>
    requires forall s | s in ss :: Fits(s, b)
  {
    var m := if seen then None else FirstOf(ss, METADATA_SECTION);
    var h := if st.found.Some? then None else FirstOf(ss, HEAT_SECTION);
    var noise := if m.None? then Some(st.noise) else OracleNoise(b, m.value);
    var grid := if h.None? then st.found else HeatGrid(b, h.value, n);
    if noise.None? || (h.Some? && grid.None?) then None else Some(Progress(grid, noise.value))
  }

  /** The driver keeps the first grid and the first noise bins. */
  lemma {:induction false} FoldKeeps(b: seq<byte>, ss: seq<Section>, n: nat, st: Progress)
    requires forall s | s in ss :: Fits(s, b)
    ensures var r := Fold(b, ss, n, st);
            r.Some? ==>
              && (st.found.Some? || CountKind(ss, HEAT_SECTION) == 0 ==> r.value.found == st.found)
              && (r.value.found.None? ==> CountKind(ss, HEAT_SECTION) == 0)
              && (st.noise.Bins? ==> r.value.noise == st.noise)
  {
    if ss != [] {
      var s := ss[0];
      assert Fits(s, b);
      if s.kind == METADATA_SECTION {
        NoiseFromRecords(b, s.at + 7, s.at + s.len, st.noise);
      }
      var st' := Handle(b, s, n, st);
      if st'.Some? {
        FoldKeeps(b, ss[1..], n, st'.value);
      }
    }
  }

  /** What a metadata section does to the noise, by what the decoder says of it. */
  lemma MetadataStep(b: seq<byte>, s: Section, noise: Noise)
    requires Fits(s, b)
    ensures noise.Unknown? ==> NoiseFrom(b, s.at + 7, s.at + s.len, noise) == OracleNoise(b, s)
    ensures NoiseFrom(b, s.at + 7, s.at + s.len, noise) == Some(noise) <==> OracleNoise(b, s) == Some(Unknown)
    ensures var r := NoiseFrom(b, s.at + 7, s.at + s.len, noise);
            r.Some? && r.value != noise ==> noise.Unknown? && r.value.Bins?
  {
    NoiseFromRecords(b, s.at + 7, s.at + s.len, noise);
    NoiseFromRecords(b, s.at + 7, s.at + s.len, Unknown);
    var rs := Records(b, s.at + 7, s.at + s.len);
    if rs.Some? {
      NoiseRecordsAreRecords(rs.value);
    }
  }

  /** How the choice looks after one more section. */
  lemma ChosenStep(b: seq<byte>, ss: seq<Section>, n: nat, st: Progress, seen: bool, st': Progress)
    requires ss != [] && (forall s | s in ss :: Fits(s, b)) && (!seen ==> st.noise.Unknown?)
    requires Fits(ss[0], b) && Handle(b, ss[0], n, st) == Some(st')
    ensures var s, rest := ss[0], ss[1..];
            var c, c' := Chosen(b, ss, n, st, seen), Chosen(b, rest, n, st', seen || s.kind == METADATA_SECTION);
            if s.kind == METADATA_SECTION && seen && st' != st then
              OracleNoise(b, s) != Some(Unknown) && st'.noise.Bins? && st.noise.Unknown?
              && c == match c' { case None => None case Some(p) => Some(p.(noise := Unknown)) }
            else c == c' && (s.kind == METADATA_SECTION && seen ==> OracleNoise(b, s) == Some(Unknown))
  {
    if ss[0].kind == METADATA_SECTION {
      MetadataStep(b, ss[0], st.noise);
    }
  }

  /** The driver's fold against the decoder's choice, from any point on. */
  lemma {:induction false} FoldExact(b: seq<byte>, ss: seq<Section>, n: nat, st: Progress, seen: bool)
    requires (forall s | s in ss :: Fits(s, b)) && (!seen ==> st.noise.Unknown?)
    ensures var c := Chosen(b, ss, n, st, seen);
            && (c.None? ==> Fold(b, ss, n, st).None?)
            && (c.Some? ==> (Fold(b, ss, n, st) == c <==>
                             CountKind(ss, HEAT_SECTION) + (if st.found.Some? then 1 else 0) <= 1 && LaterQuiet(b, ss, seen)))
  {
    if ss != [] {
      var s, rest := ss[0], ss[1..];
      assert Fits(s, b) && forall x | x in rest :: Fits(x, b);
      if s.kind == METADATA_SECTION {
        MetadataStep(b, s, st.noise);
      }
      var st' := Handle(b, s, n, st);
      if st'.Some? {
        ChosenStep(b, ss, n, st, seen, st'.value);
        FoldKeeps(b, rest, n, st'.value);
        FoldExact(b, rest, n, st'.value, seen || s.kind == METADATA_SECTION);
      }
    }
  }

  /** The sections a report is read as, when its container and walk parse. */
  ghost function SectionsOf(b: seq<byte>): (ss: Option<seq<Section>>)
    ensures ss.Some? ==> forall s | s in ss.value :: Fits(s, b)
  {
    if ContainerEnd(b).None? then None else Walk(b, 9, ContainerEnd(b).value)
  }

  /** Driver and decoder give the same result exactly when the decoder rejects
      the report too, or the report has one heat section and no metadata
      section after the first that fails to parse or carries noise bins. */
  lemma DecodersAgreeExactly(b: seq<byte>, n: nat)
    ensures KernelDecode(b, n) == OracleDecode(b, n) <==>
              OracleDecode(b, n).None?
              || (CountKind(SectionsOf(b).value, HEAT_SECTION) == 1 && LaterQuiet(b, SectionsOf(b).value, false))
    ensures OracleDecode(b, n).None? ==> KernelDecode(b, n).None?
  {
    var end := ContainerEnd(b);
    if end.Some? {
      var start := Progress(None, Unknown);
      KernelFromIsFold(b, 9, end.value, n, start);
      var ss := Walk(b, 9, end.value);
      if ss.Some? {
        FoldExact(b, ss.value, n, start, false);
        FoldKeeps(b, ss.value, n, start);
        HeatPresent(ss.value);
        var fold, chosen := Fold(b, ss.value, n, start), Chosen(b, ss.value, n, start, false);
        assert chosen.None? || chosen.value.found.None? ==> fold.None? || fold.value.found.None?;
        assert fold.Some? && chosen.Some? && chosen.value.found.Some? ==>
                 (KernelDecode(b, n) == OracleDecode(b, n) <==> fold.value == chosen.value);
      }
    }
  }

  lemma {:induction false} HeatPresent(ss: seq<Section>)
    ensures FirstOf(ss, HEAT_SECTION).Some? <==> CountKind(ss, HEAT_SECTION) > 0
  {
    if ss != [] {
      HeatPresent(ss[1..]);
    }
  }

  /** The driver misses the heat section only in a report whose sections all
      parse, metadata included, and of which none is a heat section. */
  lemma NoEntryMeansNoHeat(b: seq<byte>, n: nat)
    ensures StatusOf(b, n).NoEntry? ==> SectionsOf(b).Some? && CountKind(SectionsOf(b).value, HEAT_SECTION) == 0
    ensures SectionsOf(b).Some? && CountKind(SectionsOf(b).value, HEAT_SECTION) == 0 ==>
              StatusOf(b, n).NoEntry? || StatusOf(b, n).Protocol?
  {
    var end := ContainerEnd(b);
    if end.Some? {
      var start := Progress(None, Unknown);
      KernelFromIsFold(b, 9, end.value, n, start);
      if Walk(b, 9, end.value).Some? {
        FoldKeeps(b, Walk(b, 9, end.value).value, n, start);
      }
    }
  }

  // ----- where they differ

  /** A heat section that fills a grid of one cell. */
  const HEAT_OF_ONE: seq<byte> := [17, 0, 0, 0, 0, 1, 1, 8, 0, 0, 0, 0, 1, 0, 0, 0, 7]

  /** Metadata sections with an empty record of kind 1, and with no noise bins listed. */
  const NO_NOISE: seq<byte> := [11, 0, 0, 0, 0, 255, 0, 1, 0, 0, 0]
  const ZERO_BINS: seq<byte> := [15, 0, 0, 0, 0, 255, 0, 4, 0, 4, 0, 0, 0, 0, 0]

  /** A report on which they differ in the noise bins: the second of two metadata
      sections carries them, and only the driver reads it. */
  const TWO_METADATA: seq<byte> := [0, 0, 50, 0, 0, 0, 0, 0, 0] + NO_NOISE + ZERO_BINS + HEAT_OF_ONE

  /** A report only the decoder accepts: it reads the first of two heat sections. */
  const TWO_HEATS: seq<byte> := [0, 0, 41, 0, 0, 0, 0, 0, 0] + HEAT_OF_ONE + HEAT_OF_ONE

  ghost predicate PartAt(b: seq<byte>, at: nat, part: seq<byte>) {
    at + |part| <= |b| && b[at..at + |part|] == part
  }

  /** The header of a section shorter than 256 bytes. */
  lemma SmallSection(b: seq<byte>, at: nat, end: nat, part: seq<byte>)
    requires PartAt(b, at, part) && at + |part| <= end <= |b|
    requires 8 <= |part| < 256 && part[0] == |part| && part[1] == part[2] == part[3] == 0
    ensures SectionAt(b, at, end) == Some(Section(at, |part|, U16(part, 4)))
    ensures forall i | at <= i < at + |part| :: b[i] == part[i - at]
  {
    assert forall i | at <= i < at + |part| :: b[i] == b[at..at + |part|][i - at];
    assert b[at + 1] == 0 && b[at + 2] == 0 && b[at + 3] == 0;
    assert b[at + 4] == part[4] && b[at + 5] == part[5];
  }

  lemma WalkStep(b: seq<byte>, offset: nat, end: nat, s: Section, rest: seq<Section>)
    requires offset < end <= |b| && SectionAt(b, offset, end) == Some(s)
    requires Walk(b, offset + s.len, end) == Some(rest)
    ensures Walk(b, offset, end) == Some([s] + rest)
  {}

  lemma FoldStep(b: seq<byte>, s: Section, rest: seq<Section>, n: nat, st: Progress, st': Progress)
    requires Fits(s, b) && (forall x | x in rest :: Fits(x, b)) && Handle(b, s, n, st) == Some(st')
    ensures Fold(b, [s] + rest, n, st) == Fold(b, rest, n, st')
  {
    assert ([s] + rest)[1..] == rest;
  }

  lemma OneBlockPlaced(k: Block)
    requires k.dest == 0
    ensures Placed([k], |k.samples|) && Written([k]) == |k.samples|
  {
    var ks := [k];
    assert ks[..|ks| - 1] == [] && ks[|ks| - 1] == k;
    assert CellsOf([]) == {} && Placed([], |k.samples|) && Written([]) == 0;
  }

  lemma OneBlockTiles(k: Block)
    requires k.dest == 0
    ensures Tiles([k], |k.samples|) && Paint([k], |k.samples|) == k.samples
  {
    OneBlockPlaced(k);
    WrittenDecidesTiling([k], |k.samples|);
    var ks := [k];
    assert ks[..|ks| - 1] == [] && ks[|ks| - 1] == k;
    assert k.samples[0..|k.samples|] == k.samples;
    assert AllCopy([], k.samples) && Copies(k, k.samples);
    PaintOfCut([k], k.samples);
  }

  lemma HeatOfOne(b: seq<byte>, at: nat)
    requires PartAt(b, at, HEAT_OF_ONE)
    ensures HeatGrid(b, Section(at, 17, HEAT_SECTION), 1) == Some([7])
  {
    SmallSection(b, at, |b|, HEAT_OF_ONE);
    assert b[at + 6] == 1 && b[at + 7] == 8;
    assert U32(b, at + 8) == 0 by {
      assert b[at + 8] == 0 && b[at + 9] == 0 && b[at + 10] == 0 && b[at + 11] == 0;
    }
    assert U32(b, at + 12) == 1 by {
      assert b[at + 12] == 1 && b[at + 13] == 0 && b[at + 14] == 0 && b[at + 15] == 0;
    }
    assert b[at + 16] == 7;
    var k := Block(0, [7]);
    assert BlockAt(b, at + 8, at + 17) == k;
    assert [] + [k] == [k];
    ParseOne(b, at + 8, at + 17, [], k, at + 17);
    OneBlockTiles(k);
  }

  lemma NoNoise(b: seq<byte>, at: nat)
    requires PartAt(b, at, NO_NOISE)
    ensures NoiseFrom(b, at + 7, at + 11, Unknown) == Some(Unknown)
  {
    SmallSection(b, at, |b|, NO_NOISE);
    assert b[at + 7] == 1 && b[at + 9] == 0 && b[at + 10] == 0;
    assert RecordAt(b, at + 7, at + 11) == Some(Record(1, at + 11, 0));
  }

  lemma ZeroBins(b: seq<byte>, at: nat)
    requires PartAt(b, at, ZERO_BINS)
    ensures NoiseFrom(b, at + 7, at + 15, Unknown) == Some(Bins([]))
  {
    SmallSection(b, at, |b|, ZERO_BINS);
    assert b[at + 7] == 4 && b[at + 9] == 4 && b[at + 10] == 0 && b[at + 11] == 0;
    var r := Record(4, at + 11, 4);
    assert RecordAt(b, at + 7, at + 15) == Some(r);
    assert BinsOf(b, r) == [];
  }

  lemma TwoMetadataDiffer()
    ensures KernelDecode(TWO_METADATA, 1) == Some(([7], Bins([])))
    ensures OracleDecode(TWO_METADATA, 1) == Some(([7], Unknown))
  {
    var b := TWO_METADATA;
    assert |b| == 52 && ContainerEnd(b) == Some(52);
    assert PartAt(b, 9, NO_NOISE) && PartAt(b, 20, ZERO_BINS) && PartAt(b, 35, HEAT_OF_ONE);
    TwoMetadataRead(b);
  }

  lemma TwoMetadataRead(b: seq<byte>)
    requires |b| == 52 && ContainerEnd(b) == Some(52)
    requires PartAt(b, 9, NO_NOISE) && PartAt(b, 20, ZERO_BINS) && PartAt(b, 35, HEAT_OF_ONE)
    ensures KernelDecode(b, 1) == Some(([7], Bins([])))
    ensures OracleDecode(b, 1) == Some(([7], Unknown))
  {
    var m1, m2, h := Section(9, 11, METADATA_SECTION), Section(20, 15, METADATA_SECTION), Section(35, 17, HEAT_SECTION);
    NoNoise(b, 9);
    ZeroBins(b, 20);
    HeatOfOne(b, 35);
    TwoMetadataWalk(b, m1, m2, h);
    KernelFromIsFold(b, 9, 52, 1, Progress(None, Unknown));
    SecondRead(b, m1, m2, h, 1, Bins([]), [7]);
    SecondHidden(b, m1, m2, h, 1, [7]);
  }

  lemma WalkTwo(b: seq<byte>, at: nat, end: nat, s: Section, s': Section)
    requires at < end <= |b| && SectionAt(b, at, end) == Some(s) && at + s.len < end
    requires SectionAt(b, at + s.len, end) == Some(s') && at + s.len + s'.len == end
    ensures Walk(b, at, end) == Some([s] + [s'])
  {
    assert [s'] + [] == [s'];
    WalkStep(b, at + s.len, end, s', []);
    WalkStep(b, at, end, s, [s']);
  }

  lemma TwoMetadataWalk(b: seq<byte>, m1: Section, m2: Section, h: Section)
    requires |b| == 52 && PartAt(b, 9, NO_NOISE) && PartAt(b, 20, ZERO_BINS) && PartAt(b, 35, HEAT_OF_ONE)
    requires m1 == Section(9, 11, METADATA_SECTION) && m2 == Section(20, 15, METADATA_SECTION)
    requires h == Section(35, 17, HEAT_SECTION)
    ensures Walk(b, 9, 52) == Some([m1] + ([m2] + [h]))
  {
    LastTwoWalk(b, m2, h);
    SmallSection(b, 9, 52, NO_NOISE);
    WalkStep(b, 9, 52, m1, [m2] + [h]);
  }

  lemma LastTwoWalk(b: seq<byte>, m: Section, h: Section)
    requires |b| == 52 && PartAt(b, 20, ZERO_BINS) && PartAt(b, 35, HEAT_OF_ONE)
    requires m == Section(20, 15, METADATA_SECTION) && h == Section(35, 17, HEAT_SECTION)
    ensures Walk(b, 20, 52) == Some([m] + [h])
  {
    SmallSection(b, 20, 52, ZERO_BINS);
    SmallSection(b, 35, 52, HEAT_OF_ONE);
    WalkTwo(b, 20, 52, m, h);
  }

  lemma LastRead(b: seq<byte>, h: Section, n: nat, st: Progress, g: seq<byte>)
    requires Fits(h, b) && h.kind == HEAT_SECTION && st.found.None? && HeatGrid(b, h, n) == Some(g)
    ensures Fold(b, [h], n, st) == Some(st.(found := Some(g)))
  {
    FoldStep(b, h, [], n, st, st.(found := Some(g)));
    assert [h] + [] == [h];
  }

  lemma LastTwoRead(b: seq<byte>, m: Section, h: Section, n: nat, noise: Noise, g: seq<byte>)
    requires Fits(m, b) && Fits(h, b) && m.kind == METADATA_SECTION && h.kind == HEAT_SECTION
    requires NoiseFrom(b, m.at + 7, m.at + m.len, Unknown) == Some(noise) && HeatGrid(b, h, n) == Some(g)
    ensures Fold(b, [m] + [h], n, Progress(None, Unknown)) == Some(Progress(Some(g), noise))
  {
    FoldStep(b, m, [h], n, Progress(None, Unknown), Progress(None, noise));
    LastRead(b, h, n, Progress(None, noise), g);
  }

  lemma QuietFirst(b: seq<byte>, m: Section, rest: seq<Section>, n: nat, st: Progress)
    requires Fits(m, b) && (forall x | x in rest :: Fits(x, b)) && m.kind == METADATA_SECTION
    requires NoiseFrom(b, m.at + 7, m.at + m.len, st.noise) == Some(st.noise)
    ensures Fold(b, [m] + rest, n, st) == Fold(b, rest, n, st)
  {
    FoldStep(b, m, rest, n, st, st);
  }

  /** The driver reads the noise of the second of two metadata sections. */
  lemma SecondRead(b: seq<byte>, m1: Section, m2: Section, h: Section, n: nat, noise: Noise, g: seq<byte>)
    requires Fits(m1, b) && Fits(m2, b) && Fits(h, b)
    requires m1.kind == METADATA_SECTION && m2.kind == METADATA_SECTION && h.kind == HEAT_SECTION
    requires NoiseFrom(b, m1.at + 7, m1.at + m1.len, Unknown) == Some(Unknown)
    requires NoiseFrom(b, m2.at + 7, m2.at + m2.len, Unknown) == Some(noise) && HeatGrid(b, h, n) == Some(g)
    ensures Fold(b, [m1] + ([m2] + [h]), n, Progress(None, Unknown)) == Some(Progress(Some(g), noise))
  {
    var rest, start := [m2] + [h], Progress(None, Unknown);
    assert forall x | x in rest :: Fits(x, b);
    QuietFirst(b, m1, rest, n, start);
    LastTwoRead(b, m2, h, n, noise, g);
  }

  /** The decoder does not. */
  lemma SecondHidden(b: seq<byte>, m1: Section, m2: Section, h: Section, n: nat, g: seq<byte>)
    requires Fits(m1, b) && Fits(m2, b) && Fits(h, b)
    requires m1.kind == METADATA_SECTION && m2.kind == METADATA_SECTION && h.kind == HEAT_SECTION
    requires NoiseFrom(b, m1.at + 7, m1.at + m1.len, Unknown) == Some(Unknown) && HeatGrid(b, h, n) == Some(g)
    ensures OracleSections(b, [m1] + ([m2] + [h]), n) == Some((g, Unknown))
  {
    MetadataStep(b, m1, Unknown);
    SkipFirst(m1, [m2] + [h], METADATA_SECTION);
    SkipFirst(m1, [m2] + [h], HEAT_SECTION);
    SkipFirst(m2, [h], HEAT_SECTION);
  }

  lemma SkipFirst(s: Section, rest: seq<Section>, kind: nat)
    ensures FirstOf([s] + rest, kind) == if s.kind == kind then Some(s) else FirstOf(rest, kind)
    ensures CountKind([s] + rest, kind) == (if s.kind == kind then 1 else 0) + CountKind(rest, kind)
  {
    assert ([s] + rest)[1..] == rest;
  }

  lemma TwoHeatsDiffer()
    ensures KernelDecode(TWO_HEATS, 1) == None
    ensures OracleDecode(TWO_HEATS, 1) == Some(([7], Unknown))
  {
    var b := TWO_HEATS;
    assert |b| == 43 && ContainerEnd(b) == Some(43);
    assert PartAt(b, 9, HEAT_OF_ONE) && PartAt(b, 26, HEAT_OF_ONE);
    TwoHeatsRead(b);
  }

  lemma TwoHeatsRead(b: seq<byte>)
    requires |b| == 43 && ContainerEnd(b) == Some(43)
    requires PartAt(b, 9, HEAT_OF_ONE) && PartAt(b, 26, HEAT_OF_ONE)
    ensures KernelDecode(b, 1) == None
    ensures OracleDecode(b, 1) == Some(([7], Unknown))
  {
    var h, h' := Section(9, 17, HEAT_SECTION), Section(26, 17, HEAT_SECTION);
    HeatOfOne(b, 9);
    TwoHeatsWalk(b, h, h');
    KernelFromIsFold(b, 9, 43, 1, Progress(None, Unknown));
    SecondRejected(b, h, h', 1, [7]);
  }

  lemma TwoHeatsWalk(b: seq<byte>, h: Section, h': Section)
    requires |b| == 43 && PartAt(b, 9, HEAT_OF_ONE) && PartAt(b, 26, HEAT_OF_ONE)
    requires h == Section(9, 17, HEAT_SECTION) && h' == Section(26, 17, HEAT_SECTION)
    ensures Walk(b, 9, 43) == Some([h] + [h'])
  {
    SmallSection(b, 9, 43, HEAT_OF_ONE);
    SmallSection(b, 26, 43, HEAT_OF_ONE);
    WalkTwo(b, 9, 43, h, h');
  }

  /** The driver rejects the second of two heat sections, the decoder reads the first. */
  lemma SecondRejected(b: seq<byte>, h: Section, h': Section, n: nat, g: seq<byte>)
    requires Fits(h, b) && Fits(h', b) && h.kind == HEAT_SECTION && h'.kind == HEAT_SECTION && HeatGrid(b, h, n) == Some(g)
    ensures Fold(b, [h] + [h'], n, Progress(None, Unknown)) == None
    ensures OracleSections(b, [h] + [h'], n) == Some((g, Unknown))
  {
    FoldStep(b, h, [h'], n, Progress(None, Unknown), Progress(Some(g), Unknown));
    SkipFirst(h, [h'], METADATA_SECTION);
    OnlySection(h', METADATA_SECTION);
    SkipFirst(h, [h'], HEAT_SECTION);
  }

  lemma OnlySection(s: Section, kind: nat)
    ensures FirstOf([s], kind) == if s.kind == kind then Some(s) else None
    ensures CountKind([s], kind) == if s.kind == kind then 1 else 0
  {
    SkipFirst(s, [], kind);
    assert [s] + [] == [s];
  }
}
