/** Layout of a Heat report and what it means for its blocks to tile the grid. */
module HeatFormat {
  import opened Sums

  type byte = x: int | 0 <= x < 256

  datatype Option<T> = None | Some(value: T)

  function U16(b: seq<byte>, i: nat): (x: nat)
    requires i + 2 <= |b|
    ensures x < 0x1_0000
  {
    (b[i] as int) + 256 * (b[i + 1] as int)
  }

  function U32(b: seq<byte>, i: nat): (x: nat)
    requires i + 4 <= |b|
    ensures x < 0x1_0000_0000
  {
    (b[i] as int) + 256 * (b[i + 1] as int) + 0x1_0000 * (b[i + 2] as int) + 0x100_0000 * (b[i + 3] as int)
  }

  ghost function Le16(x: nat): (b: seq<byte>)
    requires x < 0x1_0000
    ensures |b| == 2 && U16(b, 0) == x
  {
    [x % 256, x / 256]
  }

  ghost function Le32(x: nat): (b: seq<byte>)
    requires x < 0x1_0000_0000
    ensures |b| == 4 && U32(b, 0) == x
  {
    var x1 := x / 256;
    var x2 := x1 / 256;
    [x % 256, x1 % 256, x2 % 256, x2 / 256]
  }

  // ----- blocks

  /** A run of samples and where it goes. */
  datatype Block = Block(dest: nat, samples: seq<byte>)

  /** The blocks stored in b[pos..end], each an offset, a count and the
      samples, appended to those already read. */
  ghost function ParseBlocks(b: seq<byte>, pos: nat, end: nat, done: seq<Block>): Option<seq<Block>>
    requires pos <= end <= |b|
    decreases end - pos
  {
    if pos == end then Some(done)
    else if end - pos < 8 || U32(b, pos + 4) > end - pos - 8 then None
    else ParseBlocks(b, pos + 8 + U32(b, pos + 4), end, done + [BlockAt(b, pos, end)])
  }

  function BlockAt(b: seq<byte>, pos: nat, end: nat): Block
    requires pos <= end <= |b| && end - pos >= 8 && U32(b, pos + 4) <= end - pos - 8
  {
    Block(U32(b, pos), b[pos + 8..pos + 8 + U32(b, pos + 4)])
  }

  /** The cells lo .. lo + count - 1. */
  ghost function Span(lo: nat, count: nat): (xs: set<nat>)
    ensures |xs| == count && forall i: nat :: i in xs <==> lo <= i < lo + count
  {
    if count == 0 then {} else Span(lo, count - 1) + {lo + count - 1}
  }

  ghost function BlockCells(k: Block): set<nat> {
    Span(k.dest, |k.samples|)
  }

  ghost function CellsOf(blocks: seq<Block>): set<nat> {
    if blocks == [] then {} else CellsOf(blocks[..|blocks| - 1]) + BlockCells(blocks[|blocks| - 1])
  }

  /** All blocks lie in a grid of n cells and no two of them overlap. */
  ghost predicate Placed(blocks: seq<Block>, n: nat) {
    blocks == [] ||
    var rest, last := blocks[..|blocks| - 1], blocks[|blocks| - 1];
    && Placed(rest, n)
    && last.dest + |last.samples| <= n
    && BlockCells(last) !! CellsOf(rest)
  }

  ghost function Written(blocks: seq<Block>): nat {
    if blocks == [] then 0 else Written(blocks[..|blocks| - 1]) + |blocks[|blocks| - 1].samples|
  }

  /** The blocks cover every cell exactly once. */
  ghost predicate Tiles(blocks: seq<Block>, n: nat) {
    Placed(blocks, n) && Covers(CellsOf(blocks), n)
  }

  ghost predicate Covers(xs: set<nat>, n: nat) {
    forall i: nat | i < n :: i in xs
  }

  /** Overwrite the cells of one block. */
  ghost function PaintBlock(grid: seq<byte>, k: Block): (g: seq<byte>)
    requires k.dest + |k.samples| <= |grid|
    ensures |g| == |grid|
    ensures forall i | 0 <= i < |grid| ::
              g[i] == if k.dest <= i < k.dest + |k.samples| then k.samples[i - k.dest] else grid[i]
  {
    grid[..k.dest] + k.samples + grid[k.dest + |k.samples|..]
  }

  ghost function Paint(blocks: seq<Block>, n: nat): (g: seq<byte>)
    requires Placed(blocks, n)
    ensures |g| == n
  {
    if blocks == [] then seq(n, _ => 0)
    else PaintBlock(Paint(blocks[..|blocks| - 1], n), blocks[|blocks| - 1])
  }

  // ----- tilings

  lemma {:induction false} PlacedSize(blocks: seq<Block>, n: nat)
    requires Placed(blocks, n)
    ensures |CellsOf(blocks)| == Written(blocks) && CellsOf(blocks) <= Below(n)
  {
    if blocks != [] {
      var rest, last := blocks[..|blocks| - 1], blocks[|blocks| - 1];
      PlacedSize(rest, n);
      DisjointUnion(CellsOf(rest), BlockCells(last));
    }
  }

  lemma DisjointUnion(a: set<nat>, b: set<nat>)
    requires a !! b
    ensures |a + b| == |a| + |b|
  {}

  /** Disjoint blocks cover the grid exactly when their sizes add up to it. */
  lemma WrittenDecidesTiling(blocks: seq<Block>, n: nat)
    requires Placed(blocks, n)
    ensures Written(blocks) == n <==> Tiles(blocks, n)
  {
    PlacedSize(blocks, n);
    if Covers(CellsOf(blocks), n) {
      assert CellsOf(blocks) == Below(n);
    }
    if Written(blocks) == n {
      SubsetOfSameSize(CellsOf(blocks), Below(n));
    }
  }

  lemma {:induction false} PlacedPrefix(a: seq<Block>, b: seq<Block>, n: nat)
    requires Placed(a + b, n)
    ensures Placed(a, n)
  {
    if b == [] {
      assert a + b == a;
    } else {
      assert (a + b)[..|a + b| - 1] == a + b[..|b| - 1];
      PlacedPrefix(a, b[..|b| - 1], n);
    }
  }

  /** The block holds the samples of g at its place. */
  ghost predicate Copies(k: Block, g: seq<byte>) {
    && k.dest + |k.samples| <= |g|
    && k.samples == g[k.dest..k.dest + |k.samples|]
  }

  ghost predicate AllCopy(blocks: seq<Block>, g: seq<byte>) {
    blocks == [] || (AllCopy(blocks[..|blocks| - 1], g) && Copies(blocks[|blocks| - 1], g))
  }

  /** blocks is a tiling cut from the grid g. */
  ghost predicate CutFrom(blocks: seq<Block>, g: seq<byte>) {
    Tiles(blocks, |g|) && AllCopy(blocks, g)
  }

  lemma PaintStep(under: seq<byte>, last: Block, g: seq<byte>, i: nat)
    requires |under| == |g| && i < |g| && Copies(last, g)
    requires i in BlockCells(last) || under[i] == g[i]
    ensures PaintBlock(under, last)[i] == g[i]
  {}

  /** Covered cells of the painted grid agree with the grid the blocks copy. */
  lemma {:induction false} PaintedCell(blocks: seq<Block>, g: seq<byte>, i: nat)
    requires Placed(blocks, |g|) && i in CellsOf(blocks) && i < |g|
    requires AllCopy(blocks, g)
    ensures Paint(blocks, |g|)[i] == g[i]
  {
    var rest, last := blocks[..|blocks| - 1], blocks[|blocks| - 1];
    if i !in BlockCells(last) {
      PaintedCell(rest, g, i);
    }
    PaintStep(Paint(rest, |g|), last, g, i);
  }

  lemma PaintOfCut(blocks: seq<Block>, g: seq<byte>)
    requires CutFrom(blocks, g)
    ensures Paint(blocks, |g|) == g
  {
    forall i: nat | i < |g|
      ensures Paint(blocks, |g|)[i] == g[i]
    {
      PaintedCell(blocks, g, i);
    }
  }

  // ----- encoding

  ghost function EncodeBlock(k: Block): seq<byte>
    requires k.dest < 0x1_0000_0000 && |k.samples| < 0x1_0000_0000
  {
    Le32(k.dest) + Le32(|k.samples|) + k.samples
  }

  ghost predicate Encodable(blocks: seq<Block>) {
    forall k | 0 <= k < |blocks| :: blocks[k].dest < 0x1_0000_0000 && |blocks[k].samples| < 0x1_0000_0000
  }

  ghost function EncodeBlocks(blocks: seq<Block>): seq<byte>
    requires Encodable(blocks)
  {
    if blocks == [] then [] else EncodeBlock(blocks[0]) + EncodeBlocks(blocks[1..])
  }

  lemma U32At(b: seq<byte>, i: nat, x: nat)
    requires x < 0x1_0000_0000 && i + 4 <= |b| && b[i..i + 4] == Le32(x)
    ensures U32(b, i) == x
  {}

  /** What one encoded block at the front of b[pos..end] reads as. */
  lemma EncodedAt(k: Block, rest: seq<byte>, b: seq<byte>, pos: nat, end: nat)
    requires k.dest < 0x1_0000_0000 && |k.samples| < 0x1_0000_0000
    requires pos <= end <= |b| && b[pos..end] == EncodeBlock(k) + rest
    ensures end - pos == 8 + |k.samples| + |rest| && U32(b, pos + 4) == |k.samples|
    ensures BlockAt(b, pos, end) == k && b[pos + 8 + |k.samples|..end] == rest
  {
    var c := b[pos..end];
    assert forall i | 0 <= i < |c| :: b[pos + i] == c[i];
    assert c[0..4] == Le32(k.dest) && c[4..8] == Le32(|k.samples|);
    assert b[pos..pos + 4] == c[0..4] && b[pos + 4..pos + 8] == c[4..8];
    U32At(b, pos, k.dest);
    U32At(b, pos + 4, |k.samples|);
    assert c[8..8 + |k.samples|] == k.samples && c[8 + |k.samples|..] == rest;
    assert b[pos + 8..pos + 8 + |k.samples|] == c[8..8 + |k.samples|];
    assert b[pos + 8 + |k.samples|..end] == c[8 + |k.samples|..];
  }

  lemma ParseOne(b: seq<byte>, pos: nat, end: nat, done: seq<Block>, k: Block, next: nat)
    requires pos <= end <= |b| && 8 <= end - pos && next == pos + 8 + U32(b, pos + 4) <= end
    requires BlockAt(b, pos, end) == k
    ensures ParseBlocks(b, pos, end, done) == ParseBlocks(b, next, end, done + [k])
  {}

  /** Encoded blocks parse back, wherever they stand. */
  lemma {:induction false} BlocksRoundTrip(blocks: seq<Block>, b: seq<byte>, pos: nat, end: nat, done: seq<Block>)
    requires Encodable(blocks) && pos <= end <= |b| && b[pos..end] == EncodeBlocks(blocks)
    ensures ParseBlocks(b, pos, end, done) == Some(done + blocks)
    decreases |blocks|
  {
    if blocks == [] {
      assert |b[pos..end]| == 0;
      assert done + blocks == done;
    } else {
      var k, more := blocks[0], blocks[1..];
      var next := pos + 8 + |k.samples|;
      assert done + [k] + more == done + blocks;
      EncodedAt(k, EncodeBlocks(more), b, pos, end);
      ParseOne(b, pos, end, done, k, next);
      BlocksRoundTrip(more, b, next, end, done + [k]);
    }
  }
}
