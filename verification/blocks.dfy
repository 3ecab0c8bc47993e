/** The block grid: how a session builds it, how the game loop picks the one
    block the ball destroys in a frame, and how destroyed and remaining
    blocks are counted. */
module Blocks {
  import opened Geometry

  /** Outcome of scanning the grid for the block the ball hits. */
  datatype Hit = NoHit | HitAt(index: nat)

  /** The block in row `row` and column `col` of a freshly built grid. */
  function NewBlock(row: nat, col: nat): Block {
    Block(row * BlocksPerRow + col,
          (col as real) * (BlockWidth + BlockGap) + GridLeft,
          (row as real) * (BlockHeight + BlockGap) + GridTop,
          false)
  }

  /** The first `cols` blocks of row `row`, left to right. */
  function GridRow(row: nat, cols: nat): (r: seq<Block>)
    requires cols <= BlocksPerRow
    ensures |r| == cols
    ensures forall c :: 0 <= c < cols ==>
      r[c] == Block(row * 5 + c, (c as real) * 65.0 + 20.0, (row as real) * 25.0 + 100.0, false)
  {
    if cols == 0 then [] else GridRow(row, cols - 1) + [NewBlock(row, cols - 1)]
  }

  lemma RowColumnOfIndex(row: nat, c: nat)
    requires c < 5
    ensures (row * 5 + c) / 5 == row && (row * 5 + c) % 5 == c
  {
  }

  /** The first `rows` rows of the grid, top to bottom. Block number k sits
      in column k mod 5 and row k div 5, and carries k as its id. */
  function Grid(rows: nat): (r: seq<Block>)
    ensures |r| == rows * BlocksPerRow
    ensures forall k :: 0 <= k < |r| ==>
      r[k] == Block(k, ((k % 5) as real) * 65.0 + 20.0, ((k / 5) as real) * 25.0 + 100.0, false)
  {
    if rows == 0 then []
    else
      var prev := Grid(rows - 1);
      var row := GridRow(rows - 1, BlocksPerRow);
      var r := prev + row;
      assert forall k :: |prev| <= k < |r| ==>
        r[k] == Block(k, ((k % 5) as real) * 65.0 + 20.0, ((k / 5) as real) * 25.0 + 100.0, false)
      by {
        forall k | |prev| <= k < |r|
          ensures r[k] == Block(k, ((k % 5) as real) * 65.0 + 20.0, ((k / 5) as real) * 25.0 + 100.0, false)
        {
          assert r[k] == row[k - |prev|];
          RowColumnOfIndex(rows - 1, k - |prev|);
        }
      }
      r
  }

  /** The grid a new session starts with: four rows of five intact blocks. */
  function InitialBlocks(): (r: seq<Block>)
    ensures |r| == 20
    ensures forall k :: 0 <= k < |r| ==>
      && r[k].id == k
      && r[k].x == ((k % 5) as real) * 65.0 + 20.0
      && r[k].y == ((k / 5) as real) * 25.0 + 100.0
      && !r[k].destroyed
  {
    Grid(BlockRows)
  }

  /** A block the ball can destroy: still standing and overlapping the ball. */
  predicate Hittable(b: Ball, k: Block) {
    !k.destroyed && OverlapsBlock(b, k)
  }

  /** The lowest index at or after `from` whose block is hittable. */
  function FirstHitFrom(b: Ball, blocks: seq<Block>, from: nat): (r: Hit)
    requires from <= |blocks|
    ensures r.HitAt? ==>
      && from <= r.index < |blocks|
      && Hittable(b, blocks[r.index])
      && forall j :: from <= j < r.index ==> !Hittable(b, blocks[j])
    ensures r.NoHit? ==> forall j :: from <= j < |blocks| ==> !Hittable(b, blocks[j])
    decreases |blocks| - from
  {
    if from == |blocks| then NoHit
    else if Hittable(b, blocks[from]) then HitAt(from)
    else FirstHitFrom(b, blocks, from + 1)
  }

  /** The block the ball destroys this frame, if any: the first hittable one
      in index order. */
  function FirstHit(b: Ball, blocks: seq<Block>): Hit {
    FirstHitFrom(b, blocks, 0)
  }

  /** The game loop's block scan: walk the grid in index order, skip
      destroyed blocks, and stop at the first one the ball overlaps. */
  method ScanBlocks(b: Ball, blocks: seq<Block>) returns (hit: Hit)
    ensures hit == FirstHit(b, blocks)
    ensures hit.HitAt? ==>
      && hit.index < |blocks|
      && Hittable(b, blocks[hit.index])
      && forall j :: 0 <= j < hit.index ==> !Hittable(b, blocks[j])
    ensures hit.NoHit? <==> forall j :: 0 <= j < |blocks| ==> !Hittable(b, blocks[j])
  {
    var i := 0;
    while i < |blocks|
      invariant 0 <= i <= |blocks|
      invariant FirstHitFrom(b, blocks, i) == FirstHit(b, blocks)
      invariant forall j :: 0 <= j < i ==> !Hittable(b, blocks[j])
    {
      var block := blocks[i];
      if !block.destroyed {
        if OverlapsBlock(b, block) {
          return HitAt(i);
        }
      }
      i := i + 1;
    }
    return NoHit;
  }

  /** The grid with block `i` marked destroyed. */
  function Destroy(blocks: seq<Block>, i: nat): (r: seq<Block>)
    requires i < |blocks|
    ensures |r| == |blocks|
    ensures r[i].destroyed
    ensures r[i].id == blocks[i].id && r[i].x == blocks[i].x && r[i].y == blocks[i].y
    ensures forall j :: 0 <= j < |blocks| && j != i ==> r[j] == blocks[j]
  {
    blocks[i := blocks[i].(destroyed := true)]
  }

  /** Number of destroyed blocks. */
  function CountDestroyed(blocks: seq<Block>): (n: nat)
    ensures n <= |blocks|
  {
    if |blocks| == 0 then 0
    else (if blocks[0].destroyed then 1 else 0) + CountDestroyed(blocks[1..])
  }

  /** The blocks still standing, in grid order. */
  function Remaining(blocks: seq<Block>): (r: seq<Block>)
    ensures |r| <= |blocks|
    ensures forall k :: k in r ==> k in blocks && !k.destroyed
    ensures forall i :: 0 <= i < |blocks| && !blocks[i].destroyed ==> blocks[i] in r
  {
    if |blocks| == 0 then []
    else if blocks[0].destroyed then Remaining(blocks[1..])
    else [blocks[0]] + Remaining(blocks[1..])
  }

  predicate AllDestroyed(blocks: seq<Block>) {
    forall i :: 0 <= i < |blocks| ==> blocks[i].destroyed
  }

  predicate AllIntact(blocks: seq<Block>) {
    forall i :: 0 <= i < |blocks| ==> !blocks[i].destroyed
  }

  /** Destroying a standing block raises the destroyed count by exactly one. */
  lemma {:induction false} DestroyCountsOnce(blocks: seq<Block>, i: nat)
    requires i < |blocks| && !blocks[i].destroyed
    ensures CountDestroyed(Destroy(blocks, i)) == CountDestroyed(blocks) + 1
  {
    var r := Destroy(blocks, i);
    if i == 0 {
      assert r[1..] == blocks[1..];
    } else {
      assert r[1..] == Destroy(blocks[1..], i - 1);
      DestroyCountsOnce(blocks[1..], i - 1);
    }
  }

  /** Every block is either destroyed or remaining. */
  lemma {:induction false} DestroyedPlusRemaining(blocks: seq<Block>)
    ensures CountDestroyed(blocks) + |Remaining(blocks)| == |blocks|
  {
    if |blocks| > 0 {
      DestroyedPlusRemaining(blocks[1..]);
    }
  }

  /** The destroyed count reaches the grid size exactly when every block is
      destroyed. */
  lemma {:induction false} CountDestroyedFull(blocks: seq<Block>)
    ensures CountDestroyed(blocks) == |blocks| <==> AllDestroyed(blocks)
  {
    if |blocks| > 0 {
      CountDestroyedFull(blocks[1..]);
      assert AllDestroyed(blocks) <==> blocks[0].destroyed && AllDestroyed(blocks[1..]) by {
        if blocks[0].destroyed && AllDestroyed(blocks[1..]) {
          forall i | 0 <= i < |blocks| ensures blocks[i].destroyed {
            if i > 0 { assert blocks[i] == blocks[1..][i - 1]; }
          }
        }
      }
    }
  }

  /** No block remains exactly when every block is destroyed. */
  lemma {:induction false} NoneRemainingIffAllDestroyed(blocks: seq<Block>)
    ensures |Remaining(blocks)| == 0 <==> AllDestroyed(blocks)
  {
    DestroyedPlusRemaining(blocks);
    CountDestroyedFull(blocks);
  }

  /** A grid with no destroyed block has a destroyed count of zero. */
  lemma {:induction false} IntactCountsZero(blocks: seq<Block>)
    requires AllIntact(blocks)
    ensures CountDestroyed(blocks) == 0
  {
    if |blocks| > 0 {
      assert forall i :: 0 <= i < |blocks| - 1 ==> blocks[1..][i] == blocks[i + 1];
      IntactCountsZero(blocks[1..]);
    }
  }
}
