/**
 * The collision query of the game server (multiplayer/src/games_server/overlap_detector.rs):
 * is a cell covered by a live snake? The body is found by walking from the head, block by block,
 * against each block's direction. The walk is stated here once for any single-step function, so
 * that the walk as written (coordinates wrap modulo 2^32) and the on-board walk the game runner
 * uses (see GameRules.BoardStep) share their lemmas.
 */
module OverlapDetector {
  import opened SnakeState

  type Stepper = (Point, Direction) -> Point

  const U32Modulus: int := 0x1_0000_0000

  /** The offset of one walk step along a block: against the block's direction. */
  function WalkDelta(d: Direction): (int, int) {
    match d
    case Up => (0, 1)
    case Down => (0, -1)
    case Left => (1, 0)
    case Right => (-1, 0)
  }

  /**
   * One walk step as the source computes it: the coordinates go through `i32` and back to
   * `u32`, which is arithmetic modulo 2^32 and no wrap at the board edge.
   */
  function RawStep(p: Point, d: Direction): Point {
    ((p.0 + WalkDelta(d).0) % U32Modulus, (p.1 + WalkDelta(d).1) % U32Modulus)
  }

  /** Where `k` steps in direction `d` lead from `p`. */
  function Walk(step: Stepper, p: Point, d: Direction, k: nat): Point
    decreases k
  {
    if k == 0 then p else Walk(step, step(p, d), d, k - 1)
  }

  /** The `n` cells a block of length `n` covers, starting at `p`. */
  function Run(step: Stepper, p: Point, d: Direction, n: nat): seq<Point>
    decreases n
  {
    if n == 0 then [] else [p] + Run(step, step(p, d), d, n - 1)
  }

  /** Where the walk stands after all of `blocks`. */
  function End(step: Stepper, head: Point, blocks: seq<Block>): Point
    decreases |blocks|
  {
    if blocks == [] then head
    else End(step, Walk(step, head, blocks[0].0, blocks[0].1), blocks[1..])
  }

  /** The cells a body covers, in the order `detect_overlap` compares them with the point. */
  function Cells(step: Stepper, head: Point, blocks: seq<Block>): seq<Point>
    decreases |blocks|
  {
    if blocks == [] then []
    else Run(step, head, blocks[0].0, blocks[0].1)
         + Cells(step, Walk(step, head, blocks[0].0, blocks[0].1), blocks[1..])
  }

  lemma {:induction false} RunLength(step: Stepper, p: Point, d: Direction, n: nat)
    ensures |Run(step, p, d, n)| == n
    decreases n
  {
    if n > 0 {
      RunLength(step, step(p, d), d, n - 1);
    }
  }

  lemma {:induction false} RunAppend(step: Stepper, p: Point, d: Direction, a: nat, b: nat)
    ensures Run(step, p, d, a + b) == Run(step, p, d, a) + Run(step, Walk(step, p, d, a), d, b)
    ensures Walk(step, p, d, a + b) == Walk(step, Walk(step, p, d, a), d, b)
    decreases a
  {
    if a > 0 {
      RunAppend(step, step(p, d), d, a - 1, b);
      assert a + b - 1 == (a - 1) + b;
    }
  }

  /** Cell `j` of a run is the position reached after `j` steps. */
  lemma {:induction false} RunAt(step: Stepper, p: Point, d: Direction, n: nat, j: nat)
    requires j < n
    ensures |Run(step, p, d, n)| == n && Run(step, p, d, n)[j] == Walk(step, p, d, j)
    decreases j
  {
    RunLength(step, p, d, n);
    if j > 0 {
      RunAt(step, step(p, d), d, n - 1, j - 1);
    }
  }

  /** Walking a concatenation of bodies is walking one after the other. */
  lemma {:induction false} CellsAppend(step: Stepper, head: Point, bs: seq<Block>, cs: seq<Block>)
    ensures Cells(step, head, bs + cs) == Cells(step, head, bs) + Cells(step, End(step, head, bs), cs)
    ensures End(step, head, bs + cs) == End(step, End(step, head, bs), cs)
    decreases |bs|
  {
    if bs == [] {
      assert bs + cs == cs;
    } else {
      assert (bs + cs)[1..] == bs[1..] + cs;
      CellsAppend(step, Walk(step, head, bs[0].0, bs[0].1), bs[1..], cs);
    }
  }

  /** The walk visits exactly as many cells as the block lengths add up to. */
  lemma {:induction false} CellsLength(step: Stepper, head: Point, blocks: seq<Block>)
    ensures |Cells(step, head, blocks)| == SumLengths(blocks)
    decreases |blocks|
  {
    if blocks != [] {
      RunLength(step, head, blocks[0].0, blocks[0].1);
      CellsLength(step, Walk(step, head, blocks[0].0, blocks[0].1), blocks[1..]);
    }
  }

  /** A block of length zero, wherever it stands, contributes no cell. */
  lemma ZeroBlockContributesNothing(step: Stepper, head: Point, bs: seq<Block>, cs: seq<Block>, d: Direction)
    ensures Cells(step, head, bs + [(d, 0)] + cs) == Cells(step, head, bs + cs)
  {
    var e := End(step, head, bs);
    CellsAppend(step, head, bs + [(d, 0)], cs);
    CellsAppend(step, head, bs, [(d, 0)]);
    CellsAppend(step, head, bs, cs);
    assert Cells(step, e, [(d, 0)]) == [];
    assert End(step, e, [(d, 0)]) == e;
  }

  /** As written, a walk step off the left edge lands at the far end of the `u32` range, not on the board. */
  lemma RawStepDoesNotWrapAtBoard(y: Coord)
    ensures RawStep((0, y), Right) == (0xFFFF_FFFF, y)
    ensures RawStep((99, y), Left) == (100, y)
  {
  }

  /**
   * The loop of `detect_overlap` for any way of stepping along the body: true exactly when the
   * point is one of the cells met on the walk from the head, block after block; an empty body
   * meets no cell.
   */
  method DetectOverlapWith(step: Stepper, point: Point, snake: AliveSnake) returns (r: bool)
    ensures r <==> point in Cells(step, snake.head, snake.blocks)
  {
    var blocks := snake.blocks;
    var head := snake.head;
    for i := 0 to |blocks|
      invariant head == End(step, snake.head, blocks[..i])
      invariant point !in Cells(step, snake.head, blocks[..i])
    {
      var dir := blocks[i].0;
      var blockLen := blocks[i].1;
      ghost var start := head;
      CellsAppend(step, snake.head, blocks[..i], [blocks[i]]);
      assert blocks[..i + 1] == blocks[..i] + [blocks[i]];
      for j := 0 to blockLen
        invariant head == Walk(step, start, dir, j)
        invariant point !in Run(step, start, dir, j)
      {
        if head == point {
          RunAt(step, start, dir, blockLen, j);
          CellsAppend(step, snake.head, blocks[..i + 1], blocks[i + 1..]);
          assert blocks[..i + 1] + blocks[i + 1..] == blocks;
          return true;
        }
        RunAppend(step, start, dir, j, 1);
        head := step(head, dir);
      }
    }
    assert blocks[..|blocks|] == blocks;
    return false;
  }

  /** `detect_overlap` as written: the walk steps in `u32` arithmetic and does not wrap at the board edge. */
  method DetectOverlap(point: Point, snake: AliveSnake) returns (r: bool)
    ensures r <==> point in Cells(RawStep, snake.head, snake.blocks)
  {
    r := DetectOverlapWith(RawStep, point, snake);
  }
}
