/** The two parsers as they run: the driver filling heatmap and heat_seen in
    place, the decoder filling its two byte arrays. */
module HeatParser {
  import opened HeatFormat
  import opened HeatSpec

  /** Reading the heat section on from pos with the blocks done gives the whole result. */
  ghost predicate Reading(b: seq<byte>, s: Section, pos: nat, done: seq<Block>) {
    && Fits(s, b)
    && s.at + 8 <= pos <= s.at + s.len
    && HeatBlocks(b, s) == ParseBlocks(b, pos, s.at + s.len, done)
  }

  ghost predicate Readable(b: seq<byte>, pos: nat, end: nat)
    requires pos <= end <= |b|
  {
    end - pos >= 8 && U32(b, pos + 4) <= end - pos - 8
  }

  /** The block at pos is cut short, leaves the grid or overlaps an earlier one. */
  ghost predicate BadBlock(b: seq<byte>, pos: nat, end: nat, done: seq<Block>, n: nat)
    requires pos <= end <= |b|
  {
    !Readable(b, pos, end) || !Placed(done + [BlockAt(b, pos, end)], n)
  }

  lemma ReadOn(b: seq<byte>, s: Section, pos: nat, done: seq<Block>, k: Block, next: nat)
    requires Reading(b, s, pos, done) && Readable(b, pos, s.at + s.len)
    requires next == pos + 8 + U32(b, pos + 4) && k == BlockAt(b, pos, s.at + s.len)
    ensures Reading(b, s, next, done + [k])
  {}

  lemma WrittenNext(done: seq<Block>, k: Block)
    ensures Written(done + [k]) == Written(done) + |k.samples|
  {}

  lemma {:induction false} ParseExtends(b: seq<byte>, pos: nat, end: nat, done: seq<Block>) returns (rest: seq<Block>)
    requires pos <= end <= |b| && ParseBlocks(b, pos, end, done).Some?
    ensures ParseBlocks(b, pos, end, done).value == done + rest
    decreases end - pos
  {
    if pos == end {
      rest := [];
    } else {
      var k := BlockAt(b, pos, end);
      var more := ParseExtends(b, pos + 8 + U32(b, pos + 4), end, done + [k]);
      rest := [k] + more;
      assert done + [k] + more == done + rest;
    }
  }

  /** A bad block spoils the whole section, whatever follows it. */
  lemma BadBlockRejects(b: seq<byte>, s: Section, pos: nat, done: seq<Block>, n: nat)
    requires Reading(b, s, pos, done) && pos < s.at + s.len
    requires BadBlock(b, pos, s.at + s.len, done, n)
    ensures HeatGrid(b, s, n).None?
  {
    var end := s.at + s.len;
    if Readable(b, pos, end) {
      var more := done + [BlockAt(b, pos, end)];
      var all := ParseBlocks(b, pos + 8 + U32(b, pos + 4), end, more);
      assert HeatBlocks(b, s) == all;
      if all.Some? {
        var rest := ParseExtends(b, pos + 8 + U32(b, pos + 4), end, more);
        if Placed(more + rest, n) {
          PlacedPrefix(more, rest, n);
        }
      }
    }
  }

  /** State of both parsers between blocks. */
  ghost predicate Painted(done: seq<Block>, n: nat, heatmap: seq<byte>, seen: seq<bool>) {
    && Placed(done, n)
    && heatmap == Paint(done, n)
    && |seen| == n && forall i: nat | i < n :: seen[i] <==> i in CellsOf(done)
  }

  lemma PaintedNext(done: seq<Block>, k: Block, n: nat, heatmap: seq<byte>, seen: seq<bool>,
                    heatmap': seq<byte>, seen': seq<bool>)
    requires Painted(done, n, heatmap, seen) && Placed(done + [k], n) && k.dest + |k.samples| <= n
    requires heatmap' == PaintBlock(heatmap, k)
    requires |seen'| == n && forall i | 0 <= i < n :: seen'[i] == (seen[i] || k.dest <= i < k.dest + |k.samples|)
    ensures Painted(done + [k], n, heatmap', seen')
  {}

  /** What a parser reports of a heat section. */
  ghost predicate Outcome(b: seq<byte>, s: Section, n: nat, ok: bool, grid: seq<byte>)
    requires Fits(s, b)
  {
    if ok then HeatGrid(b, s, n) == Some(grid) else HeatGrid(b, s, n).None?
  }

  lemma Finished(b: seq<byte>, s: Section, n: nat, done: seq<Block>)
    requires Reading(b, s, s.at + s.len, done) && Placed(done, n)
    ensures HeatGrid(b, s, n) == if Tiles(done, n) then Some(Paint(done, n)) else None
  {}

  class FrameBuffer {
    const heatmap: array<byte>
    const seen: array<bool>
    var noise: Noise

    ghost predicate Valid() {
      heatmap.Length == seen.Length
    }

    constructor (n: nat)
      ensures Valid() && heatmap.Length == n && fresh(heatmap) && fresh(seen)
    {
      heatmap := new byte[n](_ => 0);
      seen := new bool[n](_ => false);
      noise := Unknown;
    }

    method Clear()
      requires Valid()
      modifies heatmap, seen
      ensures Painted([], heatmap.Length, heatmap[..], seen[..])
    {
      for i := 0 to heatmap.Length
        invariant forall k | 0 <= k < i :: heatmap[k] == 0 && !seen[k]
      {
        heatmap[i], seen[i] := 0, false;
      }
      assert heatmap[..] == seq(heatmap.Length, _ => 0);
    }

    /** Mark the cells of one block, failing at the first that is marked already. */
    method Mark(dest: nat, count: nat) returns (ok: bool)
      requires Valid() && dest + count <= seen.Length
      modifies seen
      ensures ok <==> forall i | dest <= i < dest + count :: !old(seen[i])
      ensures ok ==> forall i | 0 <= i < seen.Length :: seen[i] == (old(seen[i]) || dest <= i < dest + count)
    {
      for i := 0 to count
        invariant forall k | 0 <= k < seen.Length :: seen[k] == (old(seen[k]) || dest <= k < dest + i)
        invariant forall k | dest <= k < dest + i :: !old(seen[k])
      {
        if seen[dest + i] {
          return false;
        }
        seen[dest + i] := true;
      }
      return true;
    }

    method Copy(dest: nat, b: seq<byte>, pos: nat, count: nat)
      requires Valid() && dest + count <= heatmap.Length && pos + count <= |b|
      modifies heatmap
      ensures heatmap[..] == PaintBlock(old(heatmap[..]), Block(dest, b[pos..pos + count]))
    {
      for i := 0 to count
        invariant forall k | 0 <= k < heatmap.Length ::
                    heatmap[k] == if dest <= k < dest + i then b[pos + k - dest] else old(heatmap[k])
      {
        heatmap[dest + i] := b[pos + i];
      }
    }

    /** Range check, overlap check and copy of one block of the driver's loop. */
    method PlaceBlock(b: seq<byte>, dest: nat, at: nat, count: nat, ghost done: seq<Block>, ghost k: Block)
      returns (ok: bool)
      requires Valid() && at + count <= |b| && k == Block(dest, b[at..at + count])
      requires Painted(done, heatmap.Length, heatmap[..], seen[..])
      modifies heatmap, seen
      ensures ok <==> Placed(done + [k], heatmap.Length)
      ensures ok ==> Painted(done + [k], heatmap.Length, heatmap[..], seen[..])
    {
      ghost var marks, grid := seen[..], heatmap[..];
      Placeable(done, k, heatmap.Length, grid, marks);
      if count > heatmap.Length || dest > heatmap.Length - count {
        return false;
      }
      ok := Mark(dest, count);
      if ok {
        assert heatmap[..] == grid;
        Copy(dest, b, at, count);
        PaintedNext(done, k, heatmap.Length, grid, marks, heatmap[..], seen[..]);
      }
    }

    /** One block of the driver's loop; next is where the following block starts. */
    method TakeBlock(b: seq<byte>, s: Section, pos: nat, ghost done: seq<Block>)
      returns (ok: bool, next: nat, ghost more: seq<Block>)
      requires Valid() && Reading(b, s, pos, done)
      requires Painted(done, heatmap.Length, heatmap[..], seen[..])
      modifies heatmap, seen
      ensures !ok ==> BadBlock(b, pos, s.at + s.len, done, heatmap.Length)
      ensures ok ==> pos + 8 <= next && Reading(b, s, next, more)
      ensures ok ==> Painted(more, heatmap.Length, heatmap[..], seen[..])
      ensures ok ==> Written(more) == Written(done) + (next - pos - 8)
    {
      var end := s.at + s.len;
      more := done;
      if end - pos < 8 {
        return false, pos, done;
      }
      var dest, count := U32(b, pos), U32(b, pos + 4);
      var at := pos + 8;
      if count > end - at {
        return false, pos, done;
      }
      next := at + count;
      ghost var k := BlockAt(b, pos, end);
      more := done + [k];
      ReadOn(b, s, pos, done, k, next);
      WrittenNext(done, k);
      ok := PlaceBlock(b, dest, at, count, done, k);
    }

    /** The heat section of g6ts_extract_heatmap. */
    method TakeHeat(b: seq<byte>, s: Section) returns (ok: bool)
      requires Valid() && Fits(s, b)
      modifies heatmap, seen
      ensures Outcome(b, s, heatmap.Length, ok, heatmap[..])
    {
      if b[s.at + 6] != 1 || b[s.at + 7] != 8 {
        return false;
      }
      Clear();
      ghost var done: seq<Block> := [];
      var position, written, end := s.at + 8, 0, s.at + s.len;
      while position < end
        invariant Reading(b, s, position, done)
        invariant Painted(done, heatmap.Length, heatmap[..], seen[..])
        invariant written == Written(done)
        decreases end - position
      {
        var next;
        ghost var more;
        ok, next, more := TakeBlock(b, s, position, done);
        if !ok {
          BadBlockRejects(b, s, position, done, heatmap.Length);
          return;
        }
        done := more;
        written := written + (next - position - 8);
        position := next;
      }
      WrittenDecidesTiling(done, heatmap.Length);
      ok := written == heatmap.Length;
      Finished(b, s, heatmap.Length, done);
    }

    /** The decoder's variant: it asks whether any cell of the block is written,
        and at the end whether all cells of the grid are. */
    method TakeHeatOffline(b: seq<byte>, s: Section) returns (ok: bool)
      requires Valid() && Fits(s, b)
      modifies heatmap, seen
      ensures Outcome(b, s, heatmap.Length, ok, heatmap[..])
    {
      if b[s.at + 6] != 1 || b[s.at + 7] != 8 {
        return false;
      }
      Clear();
      ghost var done: seq<Block> := [];
      var position, end := s.at + 8, s.at + s.len;
      while position < end
        invariant Reading(b, s, position, done)
        invariant Painted(done, heatmap.Length, heatmap[..], seen[..])
        decreases end - position
      {
        var next;
        ghost var more;
        ok, next, more := TakeBlockOffline(b, s, position, done);
        if !ok {
          BadBlockRejects(b, s, position, done, heatmap.Length);
          return;
        }
        done := more;
        position := next;
      }
      ok := AllWritten();
      AllSeen(done, heatmap.Length, seen[..]);
      Finished(b, s, heatmap.Length, done);
    }

    method AllWritten() returns (all: bool)
      ensures all <==> forall k | 0 <= k < seen.Length :: seen[..][k]
    {
      for i := 0 to seen.Length
        invariant forall k | 0 <= k < i :: seen[k]
      {
        if !seen[i] {
          assert !seen[..][i];
          return false;
        }
      }
      return true;
    }

    method TakeBlockOffline(b: seq<byte>, s: Section, pos: nat, ghost done: seq<Block>)
      returns (ok: bool, next: nat, ghost more: seq<Block>)
      requires Valid() && Reading(b, s, pos, done)
      requires Painted(done, heatmap.Length, heatmap[..], seen[..])
      modifies heatmap, seen
      ensures !ok ==> BadBlock(b, pos, s.at + s.len, done, heatmap.Length)
      ensures ok ==> pos < next && Reading(b, s, next, more)
      ensures ok ==> Painted(more, heatmap.Length, heatmap[..], seen[..])
    {
      var end := s.at + s.len;
      more := done;
      if pos + 8 > end {
        return false, pos, done;
      }
      var dest, count := U32(b, pos), U32(b, pos + 4);
      var at := pos + 8;
      if at + count > end {
        return false, pos, done;
      }
      next := at + count;
      ghost var k := BlockAt(b, pos, end);
      more := done + [k];
      ReadOn(b, s, pos, done, k, next);
      ok := PlaceBlockOffline(b, dest, at, count, done, k);
    }

    /** Range check, overlap check and slice assignments of the decoder. */
    method PlaceBlockOffline(b: seq<byte>, dest: nat, at: nat, count: nat, ghost done: seq<Block>, ghost k: Block)
      returns (ok: bool)
      requires Valid() && at + count <= |b| && k == Block(dest, b[at..at + count])
      requires Painted(done, heatmap.Length, heatmap[..], seen[..])
      modifies heatmap, seen
      ensures ok <==> Placed(done + [k], heatmap.Length)
      ensures ok ==> Painted(done + [k], heatmap.Length, heatmap[..], seen[..])
    {
      ghost var marks, grid := seen[..], heatmap[..];
      Placeable(done, k, heatmap.Length, grid, marks);
      if dest + count > heatmap.Length {
        return false;
      }
      var any := AnySeen(dest, count);
      if any {
        return false;
      }
      Copy(dest, b, at, count);
      assert seen[..] == marks;
      ghost var painted := heatmap[..];
      ok := Mark(dest, count);
      assert heatmap[..] == painted;
      PaintedNext(done, k, heatmap.Length, grid, marks, heatmap[..], seen[..]);
    }

    method AnySeen(dest: nat, count: nat) returns (any: bool)
      requires Valid() && dest + count <= seen.Length
      ensures any <==> exists i | dest <= i < dest + count :: seen[i]
    {
      for i := dest to dest + count
        invariant forall k | dest <= k < i :: !seen[k]
      {
        if seen[i] {
          return true;
        }
      }
      return false;
    }
  
    /** g6ts_extract_nsr_metadata. */
    method TakeNoise(b: seq<byte>, start: nat, end: nat) returns (ok: bool)
      requires start <= end <= |b|
      modifies this`noise
      ensures NoiseFrom(b, start, end, old(noise)) == if ok then Some(noise) else None
    {
      var position := start;
      while position < end
        invariant start <= position <= end
        invariant NoiseFrom(b, start, end, old(noise)) == NoiseFrom(b, position, end, noise)
        decreases end - position
      {
        if end - position < 4 {
          return false;
        }
        var len := U16(b, position + 2);
        if len > end - position - 4 {
          return false;
        }
        var at := position + 4;
        if b[position] as int == NSR_RECORD {
          if noise.Bins? || len < 4 {
            return false;
          }
          var count := b[at] as int;
          if count > NSR_BINS || count > (len - 4) / 4 {
            return false;
          }
          var bins: seq<nat> := [];
          for i := 0 to count
            invariant |bins| == i && forall k | 0 <= k < i :: bins[k] == U16(b, at + 4 + 4 * k)
          {
            bins := bins + [U16(b, at + 4 + 4 * i)];
          }
          assert bins == BinsOf(b, Record(NSR_RECORD, at, len));
          noise := Bins(bins);
        }
        position := at + len;
      }
      return true;
    }

    /** One section of the driver's loop. */
    method TakeSection(b: seq<byte>, s: Section, found: bool, ghost st: Progress)
      returns (ok: bool, found': bool, ghost st': Progress)
      requires Valid() && Fits(s, b) && Holds(found, st)
      modifies heatmap, seen, this`noise
      ensures Handle(b, s, heatmap.Length, st) == if ok then Some(st') else None
      ensures ok ==> Holds(found', st')
    {
      found', st' := found, st;
      if s.kind == METADATA_SECTION {
        ok := TakeNoise(b, s.at + 7, s.at + s.len);
        st' := st.(noise := noise);
      } else if s.kind != HEAT_SECTION {
        ok := true;
      } else if found {
        ok := false;
      } else {
        ok := TakeHeat(b, s);
        found' := true;
        st' := st.(found := Some(heatmap[..]));
      }
    }

    /** The buffers hold what the fold has found so far. */
    ghost predicate Holds(found: bool, st: Progress)
      reads this`noise, heatmap
    {
      && st.noise == noise
      && found == st.found.Some?
      && (found ==> st.found == Some(heatmap[..]))
    }

    /** g6ts_extract_heatmap. */
    method ExtractHeatmap(b: seq<byte>) returns (status: Status)
      requires Valid()
      modifies heatmap, seen, this`noise
      ensures status == StatusOf(b, heatmap.Length)
      ensures KernelDecode(b, heatmap.Length) == if status.Success? then Some((heatmap[..], noise)) else None
    {
      if |b| < 9 {
        return MessageSize;
      }
      var containerLen := U32(b, 2);
      if containerLen < 7 || containerLen > |b| - 2 {
        return Protocol;
      }
      var containerEnd, offset := 2 + containerLen, 9;
      noise := Unknown;
      var found := false;
      ghost var start := Progress(None, Unknown);
      ghost var st := start;
      while offset < containerEnd
        invariant 9 <= offset <= containerEnd && Holds(found, st)
        invariant KernelFrom(b, 9, containerEnd, heatmap.Length, start)
               == KernelFrom(b, offset, containerEnd, heatmap.Length, st)
        decreases containerEnd - offset
      {
        if containerEnd - offset < 8 {
          return Protocol;
        }
        var len := U32(b, offset);
        if len < 8 || len > containerEnd - offset {
          return Protocol;
        }
        var ok;
        ok, found, st := TakeSection(b, Section(offset, len, U16(b, offset + 4)), found, st);
        if !ok {
          return Protocol;
        }
        offset := offset + len;
      }
      return if found then Success else NoEntry;
    }

    /** parse_sections: the walk must end exactly at the container's end. */
    method ParseSections(b: seq<byte>) returns (r: Option<seq<Section>>)
      ensures r == if ContainerEnd(b).None? then None else Walk(b, 9, ContainerEnd(b).value)
    {
      if |b| < 9 {
        return None;
      }
      var end := 2 + U32(b, 2);
      if end > |b| {
        return None;
      }
      if end < 9 {
        // the walk starts behind the end and can only report that
        return None;
      }
      r := WalkSections(b, end);
    }

    method WalkSections(b: seq<byte>, end: nat) returns (r: Option<seq<Section>>)
      requires 9 <= end <= |b|
      ensures r == Walk(b, 9, end)
    {
      var offset := 9;
      var ss: seq<Section> := [];
      WalkStart(b, end);
      while offset < end
        invariant Walking(b, offset, end, ss)
        decreases end - offset
      {
        if offset + 8 > end {
          return None;
        }
        var len := U32(b, offset);
        if len < 8 || offset + len > end {
          return None;
        }
        var s := Section(offset, len, U16(b, offset + 4));
        WalkNext(b, offset, end, ss, s);
        ss := ss + [s];
        offset := offset + len;
      }
      WalkEnd(b, end, ss);
      return Some(ss);
    }

    /** decode: sections first, then the first metadata and the first heat section. */
    method DecodeOffline(b: seq<byte>) returns (r: Option<(seq<byte>, Noise)>)
      requires Valid()
      modifies heatmap, seen
      ensures r == OracleDecode(b, heatmap.Length)
    {
      var ss := ParseSections(b);
      if ss.None? {
        return None;
      }
      r := ChooseSections(b, ss.value);
    }

    method ChooseSections(b: seq<byte>, ss: seq<Section>) returns (r: Option<(seq<byte>, Noise)>)
      requires Valid() && forall s | s in ss :: Fits(s, b)
      modifies heatmap, seen
      ensures r == OracleSections(b, ss, heatmap.Length)
    {
      var m := FirstOf(ss, METADATA_SECTION);
      var bins := if m.None? then Some(Unknown) else OracleNoise(b, m.value);
      if bins.None? {
        return None;
      }
      var h := FirstOf(ss, HEAT_SECTION);
      if h.None? {
        return None;
      }
      var ok := TakeHeatOffline(b, h.value);
      r := if ok then Some((heatmap[..], bins.value)) else None;
    }
  }

  /** Sections walked so far. */
  ghost predicate Walking(b: seq<byte>, offset: nat, end: nat, ss: seq<Section>) {
    && 9 <= offset <= end <= |b|
    && match Walk(b, offset, end)
       case None => Walk(b, 9, end).None?
       case Some(rest) => Walk(b, 9, end) == Some(ss + rest)
  }

  lemma WalkStart(b: seq<byte>, end: nat)
    requires 9 <= end <= |b|
    ensures Walking(b, 9, end, [])
  {
    var all := Walk(b, 9, end);
    assert all.Some? ==> [] + all.value == all.value;
  }

  lemma WalkNext(b: seq<byte>, offset: nat, end: nat, ss: seq<Section>, s: Section)
    requires Walking(b, offset, end, ss) && offset < end && SectionAt(b, offset, end) == Some(s)
    ensures Walking(b, offset + s.len, end, ss + [s])
  {
    var rest := Walk(b, offset + s.len, end);
    if rest.Some? {
      assert ss + ([s] + rest.value) == ss + [s] + rest.value;
    }
  }

  lemma WalkEnd(b: seq<byte>, end: nat, ss: seq<Section>)
    requires Walking(b, end, end, ss)
    ensures Walk(b, 9, end) == Some(ss)
  {
    assert ss + [] == ss;
  }

  /** What the range and overlap checks decide. */
  lemma Placeable(done: seq<Block>, k: Block, n: nat, heatmap: seq<byte>, seen: seq<bool>)
    requires Painted(done, n, heatmap, seen)
    ensures Placed(done + [k], n) <==>
              k.dest + |k.samples| <= n && forall i | k.dest <= i < k.dest + |k.samples| :: !seen[i]
  {}

  lemma AllSeen(done: seq<Block>, n: nat, seen: seq<bool>)
    requires Placed(done, n) && |seen| == n && forall i: nat | i < n :: seen[i] <==> i in CellsOf(done)
    ensures Tiles(done, n) <==> forall i | 0 <= i < n :: seen[i]
  {}
}
