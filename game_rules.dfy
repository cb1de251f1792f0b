/**
 * The rules one tick of the game runner applies (multiplayer/src/games_server/game_runner.rs),
 * one section per phase of the tick: the lobby, the start of play, the batch of player messages
 * (steering and power-ups), deaths, apples, timers, the winner and movement. Each rule that the
 * source runs as a loop is a method proved against a function that states its effect.
 */
module GameRules {
  import opened Wrappers
  import opened SnakeState
  import opened PowerUpTypes
  import opened ClientMessages
  import opened PowerUpCostLoader
  import opened ServerMessages
  import opened OverlapDetector

  const TickTimeMs: nat := 100
  const BoardWidth: nat := 100
  const BoardHeight: nat := 50
  const NumApples: nat := 40
  const MoveEveryTicks: nat := 1
  /** Ticks of invulnerability after a revive or a spent extra life, and of a freeze. */
  const EffectTicks: nat := 3 * 1000 / TickTimeMs
  const ReviveTicks: nat := 100
  const AddLengthAmount: nat := 10
  const ShrinkAmount: nat := 10
  const AppleGrowth: nat := 2
  const MinShrunkLength: int := 3
  const StartLength: nat := 3

  // ---------------------------------------------------------------- board and movement

  predicate OnBoard(p: Point) {
    p.0 < BoardWidth && p.1 < BoardHeight
  }

  /** The offset one move in a heading adds to the head. */
  function MoveDelta(d: Direction): (int, int) {
    match d
    case Up => (0, -1)
    case Down => (0, 1)
    case Left => (-1, 0)
    case Right => (1, 0)
  }

  /** The head after one move: one cell in the heading, wrapping around the board. */
  function MoveHead(p: Point, d: Direction): (r: Point)
    ensures OnBoard(r)
  {
    ((p.0 + MoveDelta(d).0 + BoardWidth) % BoardWidth, (p.1 + MoveDelta(d).1 + BoardHeight) % BoardHeight)
  }

  /** The body walk steps against the block's direction: the move delta of the opposite heading. */
  lemma WalkIsReversedMove(d: Direction)
    ensures WalkDelta(d) == MoveDelta(Opposite(d))
    ensures WalkDelta(d) == (-MoveDelta(d).0, -MoveDelta(d).1)
  {
  }

  /**
   * The body walk with the board's wrap-around, the corrected form of the walk in
   * overlap_detector.rs (see README, Findings).
   */
  function BoardStep(p: Point, d: Direction): (r: Point)
    ensures OnBoard(r)
  {
    ((p.0 + WalkDelta(d).0 + BoardWidth) % BoardWidth, (p.1 + WalkDelta(d).1 + BoardHeight) % BoardHeight)
  }

  /** A step of the corrected walk leads from a moved head back to where the head was. */
  lemma BoardStepUndoesMove(p: Point, d: Direction)
    requires OnBoard(p)
    ensures BoardStep(MoveHead(p, d), d) == p
  {
  }

  /** The cells a live snake covers, walked with the board's wrap-around. */
  function BodyCells(s: AliveSnake): seq<Point> {
    Cells(BoardStep, s.head, s.blocks)
  }

  /** The front of the body after a move: a new block when the heading changed, then one cell longer. */
  function GrowFront(blocks: seq<Block>, d: Direction): (g: seq<Block>)
    requires |blocks| >= 1
  {
    var front := if d != blocks[0].0 then [(d, 0)] + blocks else blocks;
    front[0 := (front[0].0, front[0].1 + 1)]
  }

  /** The tail of the body after a move: the last block one shorter, and dropped once empty. */
  function DropTailCell(g: seq<Block>): seq<Block>
    requires |g| >= 1 && g[|g| - 1].1 >= 1
  {
    var n := |g|;
    var shrunk := g[n - 1 := (g[n - 1].0, g[n - 1].1 - 1)];
    if shrunk[n - 1].1 == 0 then shrunk[..n - 1] else shrunk
  }

  /** The body after one move in heading `d` (lines 287-295). */
  function MoveBlocks(blocks: seq<Block>, d: Direction): seq<Block>
    requires WellFormed(blocks)
  {
    DropTailCell(GrowFront(blocks, d))
  }

  /** Removing the last cell of a body: one off the tail block, which is dropped once empty. */
  lemma {:induction false} DropLastCell(step: Stepper, x: Point, g: seq<Block>)
    requires |g| >= 1 && g[|g| - 1].1 >= 1
    ensures |Cells(step, x, g)| >= 1
    ensures Cells(step, x, DropTailCell(g)) == Cells(step, x, g)[..|Cells(step, x, g)| - 1]
  {
    var n := |g|;
    var (dl, k) := g[n - 1];
    var init := g[..n - 1];
    var shrunk := g[n - 1 := (dl, k - 1)];
    var e := End(step, x, init);
    assert g == init + [(dl, k)];
    assert shrunk == init + [(dl, k - 1)];
    CellsAppend(step, x, init, [(dl, k)]);
    CellsAppend(step, x, init, [(dl, k - 1)]);
    assert Cells(step, e, [(dl, k)]) == Run(step, e, dl, k);
    assert Cells(step, e, [(dl, k - 1)]) == Run(step, e, dl, k - 1);
    RunAppend(step, e, dl, k - 1, 1);
    RunLength(step, e, dl, k - 1);
    assert Run(step, Walk(step, e, dl, k - 1), dl, 1) == [Walk(step, e, dl, k - 1)];
    if k - 1 == 0 {
      assert shrunk[..n - 1] == init;
      assert Cells(step, x, init) == Cells(step, x, shrunk);
    }
  }

  /** The new front cell is the moved head; behind it lies the whole old body. */
  lemma {:induction false} GrowFrontCells(h: Point, blocks: seq<Block>, d: Direction)
    requires OnBoard(h) && |blocks| >= 1
    ensures Cells(BoardStep, MoveHead(h, d), GrowFront(blocks, d)) == [MoveHead(h, d)] + Cells(BoardStep, h, blocks)
  {
    var h' := MoveHead(h, d);
    BoardStepUndoesMove(h, d);
    var grown := GrowFront(blocks, d);
    var rest := Cells(BoardStep, Walk(BoardStep, h', grown[0].0, grown[0].1), grown[1..]);
    assert grown[0].0 == d;
    assert Cells(BoardStep, h', grown) == Run(BoardStep, h', d, grown[0].1) + rest;
    if d != blocks[0].0 {
      assert grown[1..] == blocks;
      assert Run(BoardStep, h', d, 1) == [h'];
    } else {
      assert grown[1..] == blocks[1..];
    }
  }

  /** One move keeps the body's total length and its well-formedness. */
  lemma {:induction false} MoveKeepsLength(blocks: seq<Block>, d: Direction)
    requires WellFormed(blocks)
    ensures WellFormed(MoveBlocks(blocks, d))
    ensures SumLengths(MoveBlocks(blocks, d)) == SumLengths(blocks)
  {
    var h: Point := (0, 0);
    MoveFollowsHead(h, blocks, d);
    CellsLength(BoardStep, h, blocks);
    CellsLength(BoardStep, MoveHead(h, d), MoveBlocks(blocks, d));
    var grown := GrowFront(blocks, d);
    assert forall i :: 0 <= i < |grown| ==> grown[i].1 >= 1;
  }

  /**
   * Moving a live snake puts the new head in front of its old body and drops the last cell:
   * with the board-wrapping walk the body follows the head.
   */
  lemma {:induction false} MoveFollowsHead(h: Point, blocks: seq<Block>, d: Direction)
    requires OnBoard(h) && WellFormed(blocks)
    ensures SumLengths(blocks) >= 1
    ensures
      var old_cells := Cells(BoardStep, h, blocks);
      Cells(BoardStep, MoveHead(h, d), MoveBlocks(blocks, d))
        == [MoveHead(h, d)] + old_cells[..|old_cells| - 1]
  {
    var grown := GrowFront(blocks, d);
    GrowFrontCells(h, blocks, d);
    DropLastCell(BoardStep, MoveHead(h, d), grown);
    CellsLength(BoardStep, h, blocks);
    assert SumLengths(blocks) >= blocks[0].1 >= 1;
  }

  // ---------------------------------------------------------------- the lobby

  predicate IsReadyFrom(m: GameIncomingMessage, p: string) {
    m.playerId == p && m.message.SetReady?
  }

  /** The ready table after a batch of messages: each `SetReady` overwrites its sender's flag. */
  function ApplyReady(ready: map<string, bool>, msgs: seq<GameIncomingMessage>): map<string, bool>
    decreases |msgs|
  {
    if msgs == [] then ready
    else
      var r := ApplyReady(ready, msgs[..|msgs| - 1]);
      var m := msgs[|msgs| - 1];
      if m.message.SetReady? then r[m.playerId := m.message.ready] else r
  }

  /** The lobby loop over the batch (lines 53-57). */
  method ReadyStep(ready: map<string, bool>, msgs: seq<GameIncomingMessage>) returns (r: map<string, bool>)
    ensures r == ApplyReady(ready, msgs)
  {
    r := ready;
    for i := 0 to |msgs|
      invariant r == ApplyReady(ready, msgs[..i])
    {
      assert msgs[..i + 1][..i] == msgs[..i];
      if msgs[i].message.SetReady? {
        r := r[msgs[i].playerId := msgs[i].message.ready];
      }
    }
    assert msgs[..|msgs|] == msgs;
  }

  /**
   * The last `SetReady` a player sent in the batch decides the player's flag; a player who
   * sent none keeps the old one; only senders are added to the table.
   */
  lemma {:induction false} ReadyLastWins(ready: map<string, bool>, msgs: seq<GameIncomingMessage>, p: string)
    ensures p in ApplyReady(ready, msgs) <==>
              p in ready || exists i :: 0 <= i < |msgs| && IsReadyFrom(msgs[i], p)
    ensures forall i :: 0 <= i < |msgs| && IsReadyFrom(msgs[i], p) &&
                        (forall j :: i < j < |msgs| ==> !IsReadyFrom(msgs[j], p)) ==>
              p in ApplyReady(ready, msgs) && ApplyReady(ready, msgs)[p] == msgs[i].message.ready
    ensures (forall i :: 0 <= i < |msgs| ==> !IsReadyFrom(msgs[i], p)) && p in ready ==>
              p in ApplyReady(ready, msgs) && ApplyReady(ready, msgs)[p] == ready[p]
  {
    ReadyKeys(ready, msgs, p);
    ReadyLast(ready, msgs, p);
    ReadyKept(ready, msgs, p);
  }

  /** The table's keys: the old ones and the senders. */
  lemma {:induction false} ReadyKeys(ready: map<string, bool>, msgs: seq<GameIncomingMessage>, p: string)
    ensures p in ApplyReady(ready, msgs) <==>
              p in ready || exists i :: 0 <= i < |msgs| && IsReadyFrom(msgs[i], p)
    decreases |msgs|
  {
    if msgs != [] {
      var n := |msgs|;
      var init := msgs[..n - 1];
      ReadyKeys(ready, init, p);
      if IsReadyFrom(msgs[n - 1], p) {
        assert exists i :: 0 <= i < n && IsReadyFrom(msgs[i], p);
      } else if exists i :: 0 <= i < n && IsReadyFrom(msgs[i], p) {
        var i :| 0 <= i < n && IsReadyFrom(msgs[i], p);
        assert init[i] == msgs[i];
      } else {
        assert forall i :: 0 <= i < n - 1 ==> init[i] == msgs[i];
      }
    }
  }

  /** A sender's last `SetReady` decides its flag. */
  lemma {:induction false} ReadyLast(ready: map<string, bool>, msgs: seq<GameIncomingMessage>, p: string)
    ensures forall i :: 0 <= i < |msgs| && IsReadyFrom(msgs[i], p) &&
                        (forall j :: i < j < |msgs| ==> !IsReadyFrom(msgs[j], p)) ==>
              p in ApplyReady(ready, msgs) && ApplyReady(ready, msgs)[p] == msgs[i].message.ready
    decreases |msgs|
  {
    if msgs != [] && !IsReadyFrom(msgs[|msgs| - 1], p) {
      var n := |msgs|;
      var init := msgs[..n - 1];
      ReadyLast(ready, init, p);
      forall i | 0 <= i < n && IsReadyFrom(msgs[i], p) &&
                 (forall j :: i < j < n ==> !IsReadyFrom(msgs[j], p))
        ensures p in ApplyReady(ready, msgs) && ApplyReady(ready, msgs)[p] == msgs[i].message.ready
      {
        assert i < n - 1 && init[i] == msgs[i];
        assert forall j :: i < j < n - 1 ==> init[j] == msgs[j];
      }
    }
  }

  /** A player who sent no `SetReady` keeps the flag it had. */
  lemma {:induction false} ReadyKept(ready: map<string, bool>, msgs: seq<GameIncomingMessage>, p: string)
    ensures (forall i :: 0 <= i < |msgs| ==> !IsReadyFrom(msgs[i], p)) && p in ready ==>
              p in ApplyReady(ready, msgs) && ApplyReady(ready, msgs)[p] == ready[p]
    decreases |msgs|
  {
    if msgs != [] {
      var init := msgs[..|msgs| - 1];
      ReadyKept(ready, init, p);
      assert forall i :: 0 <= i < |init| ==> init[i] == msgs[i];
    }
  }

  /** Senders that are already in the table never change its key set. */
  lemma {:induction false} ApplyReadyKeys(ready: map<string, bool>, msgs: seq<GameIncomingMessage>)
    requires forall i :: 0 <= i < |msgs| ==> msgs[i].playerId in ready
    ensures ApplyReady(ready, msgs).Keys == ready.Keys
    decreases |msgs|
  {
    if msgs != [] {
      ApplyReadyKeys(ready, msgs[..|msgs| - 1]);
    }
  }

  predicate AllReady(ready: map<string, bool>) {
    forall p :: p in ready ==> ready[p]
  }

  // ---------------------------------------------------------------- the start of play

  /** The column of the head of player number `idx` of `n` at the start (line 328). */
  function StartColumn(idx: nat, n: nat): nat
    requires idx < n
  {
    var cells: nat := BoardWidth * idx;
    var a: nat := cells / n;
    var b: nat := BoardWidth / (2 * n);
    a + b
  }

  /** Every start column is on the board. */
  lemma StartColumnOnBoard(idx: nat, n: nat)
    requires idx < n
    ensures StartColumn(idx, n) < BoardWidth
  {
    var a := BoardWidth * idx / n;
    var b := BoardWidth / (2 * n);
    assert a * n <= BoardWidth * idx;
    assert b * (2 * n) <= BoardWidth;
    MulLe(idx, n - 1, BoardWidth);
    assert (a + b) * (2 * n) == 2 * (a * n) + b * (2 * n);
    assert (a + b) * (2 * n) < BoardWidth * (2 * n);
    if a + b >= BoardWidth {
      MulLe(BoardWidth, a + b, 2 * n);
    }
  }

  /** With at most 100 players, different positions in the player list start in different columns. */
  lemma StartColumnsDistinct(i: nat, j: nat, n: nat)
    requires i < j < n <= BoardWidth
    ensures StartColumn(i, n) < StartColumn(j, n)
  {
    var a := BoardWidth * i / n;
    var c := BoardWidth * j / n;
    assert BoardWidth * j >= BoardWidth * i + n;
    assert a * n <= BoardWidth * i;
    assert (a + 1) * n <= BoardWidth * j;
    DivMonotone(BoardWidth * j, a + 1, n);
  }

  lemma DivMonotone(x: nat, q: nat, n: nat)
    requires n > 0 && q * n <= x
    ensures q <= x / n
  {
    var d := x / n;
    assert x == d * n + x % n;
    if q > d {
      MulLe(d + 1, q, n);
    }
  }

  lemma MulLe(a: int, b: int, c: nat)
    requires a <= b
    ensures a * c <= b * c
  {
  }

  /** The largest position at which `k` occurs: a later duplicate overwrites an earlier one. */
  function LastIndexOf(players: seq<string>, k: string): (i: nat)
    requires k in players
    ensures i < |players| && players[i] == k
    ensures forall j :: i < j < |players| ==> players[j] != k
    decreases |players|
  {
    if players[|players| - 1] == k then |players| - 1 else LastIndexOf(players[..|players| - 1], k)
  }

  function InitialSnake(key: string, idx: nat, n: nat): Snake
    requires idx < n
  {
    StartColumnOnBoard(idx, n);
    Snake.Alive(AliveSnake(key, (StartColumn(idx, n), BoardHeight / 2), Up, [(Up, StartLength)], None, None, false))
  }

  /** The state play begins in (lines 322-336). */
  function InitialPlaying(players: seq<string>): GameState {
    GameState.Playing(
      map k | k in players :: InitialSnake(k, LastIndexOf(players, k), |players|),
      [],
      map k | k in players :: 0.0)
  }

  // ---------------------------------------------------------------- what the engine keeps true

  predicate SnakeValid(id: string, s: Snake) {
    && s.UserId() == id
    && OnBoard(s.Head())
    && (s.Alive? ==> WellFormed(s.snake.blocks))
  }

  /** Each snake is filed under its owner, sits on the board and has a well-formed body. */
  predicate SnakesValid(snakes: map<string, Snake>) {
    forall id :: id in snakes ==> SnakeValid(id, snakes[id])
  }

  /** Every player of the list starts alive, on the board, under its own key, with nothing spent. */
  lemma InitialPlayingValid(players: seq<string>)
    ensures InitialPlaying(players).snakes.Keys == (set p | p in players)
    ensures InitialPlaying(players).amountsSpent.Keys == (set p | p in players)
    ensures SnakesValid(InitialPlaying(players).snakes)
    ensures forall p :: p in players ==> InitialPlaying(players).amountsSpent[p] == 0.0
    ensures forall p :: p in players ==>
      var s := InitialPlaying(players).snakes[p];
      && s.Alive? && s.snake.headDirection == Up && s.snake.blocks == [(Up, StartLength)]
      && s.snake.head == (StartColumn(LastIndexOf(players, p), |players|), BoardHeight / 2)
      && s.snake.invulnerableFor.None? && s.snake.frozenFor.None? && !s.snake.hasExtraLife
  {
    forall p | p in players
      ensures SnakeValid(p, InitialPlaying(players).snakes[p])
    {
      StartColumnOnBoard(LastIndexOf(players, p), |players|);
    }
  }

  // ---------------------------------------------------------------- steering

  /** `SetDirection` (lines 144-150): a live snake takes a new heading unless it is the current one or its reverse. */
  function Steer(s: Snake, d: Direction): Snake {
    match s
    case Alive(a) =>
      if a.headDirection != d && Opposite(a.headDirection) != d then Snake.Alive(a.(headDirection := d)) else s
    case Dead(_, _, _) => s
  }

  lemma SteerRule(s: Snake, d: Direction)
    ensures Steer(s, d) != s <==>
              s.Alive? && d != s.snake.headDirection && d != Opposite(s.snake.headDirection)
    ensures Steer(s, d) != s ==> Steer(s, d) == Snake.Alive(s.snake.(headDirection := d))
    ensures Steer(s, d).Alive? == s.Alive? && Steer(s, d).UserId() == s.UserId() && Steer(s, d).Head() == s.Head()
  {
  }

  /** The reverse is refused per message, not per tick: two turns in one batch reverse a snake. */
  lemma TwoTurnsCanReverse(a: AliveSnake)
    requires a.headDirection == Up
    ensures Steer(Steer(Snake.Alive(a), Left), Down) == Snake.Alive(a.(headDirection := Down))
  {
  }

  // ---------------------------------------------------------------- power-ups

  function MaxInt(a: int, b: int): int {
    if a >= b then a else b
  }

  /**
   * Shrinking a body by `amt` cells from the tail, the corrected form of lines 100-113: a tail
   * block no longer than what remains is dropped whole (the source drops it only when strictly
   * shorter; see README, Findings); a lone block is cut but never below three cells.
   */
  function Shrunk(blocks: seq<Block>, amt: nat): seq<Block>
    requires |blocks| >= 1
    decreases |blocks|
  {
    var n := |blocks|;
    if amt > 0 && n > 1 then
      if blocks[n - 1].1 <= amt then Shrunk(blocks[..n - 1], amt - blocks[n - 1].1)
      else blocks[n - 1 := (blocks[n - 1].0, blocks[n - 1].1 - amt)]
    else if amt > 0 then
      var floor: nat := MaxInt(MinShrunkLength, blocks[0].1 - amt);
      blocks[0 := (blocks[0].0, floor)]
    else blocks
  }

  /** Lines 100-113 exactly as written: the tail block is dropped only when strictly shorter than what remains. */
  function ShrunkAsWritten(blocks: seq<Block>, amt: nat): seq<Block>
    requires |blocks| >= 1
    decreases |blocks|
  {
    var n := |blocks|;
    if amt > 0 && n > 1 then
      if blocks[n - 1].1 < amt then ShrunkAsWritten(blocks[..n - 1], amt - blocks[n - 1].1)
      else blocks[n - 1 := (blocks[n - 1].0, blocks[n - 1].1 - amt)]
    else if amt > 0 then
      var floor: nat := MaxInt(MinShrunkLength, blocks[0].1 - amt);
      blocks[0 := (blocks[0].0, floor)]
    else blocks
  }

  /** The shrinking loop of `ShrinkOpponent`, corrected as in `Shrunk`. */
  method ShrinkBlocks(blocks: seq<Block>) returns (r: seq<Block>)
    requires |blocks| >= 1
    ensures r == Shrunk(blocks, ShrinkAmount)
  {
    r := blocks;
    var amt: nat := ShrinkAmount;
    while amt > 0 && |r| > 1
      invariant |r| >= 1
      invariant Shrunk(r, amt) == Shrunk(blocks, ShrinkAmount)
      decreases |r|, amt
    {
      var n := |r|;
      if r[n - 1].1 <= amt {
        amt := amt - r[n - 1].1;
        r := r[..n - 1];
      } else {
        r := r[n - 1 := (r[n - 1].0, r[n - 1].1 - amt)];
        amt := 0;
      }
    }
    if amt > 0 && |r| == 1 {
      var floor: nat := MaxInt(MinShrunkLength, r[0].1 - amt);
      r := r[0 := (r[0].0, floor)];
    }
  }

  /** The shrinking loop of `ShrinkOpponent` exactly as lines 100-113 write it. */
  method ShrinkBlocksAsWritten(blocks: seq<Block>) returns (r: seq<Block>)
    requires |blocks| >= 1
    ensures r == ShrunkAsWritten(blocks, ShrinkAmount)
  {
    r := blocks;
    var amt: nat := ShrinkAmount;
    while amt > 0 && |r| > 1
      invariant |r| >= 1
      invariant ShrunkAsWritten(r, amt) == ShrunkAsWritten(blocks, ShrinkAmount)
      decreases |r|, amt
    {
      var n := |r|;
      if r[n - 1].1 < amt {
        amt := amt - r[n - 1].1;
        r := r[..n - 1];
      } else {
        r := r[n - 1 := (r[n - 1].0, r[n - 1].1 - amt)];
        amt := 0;
      }
    }
    if amt > 0 && |r| == 1 {
      var floor: nat := MaxInt(MinShrunkLength, r[0].1 - amt);
      r := r[0 := (r[0].0, floor)];
    }
  }

  lemma {:induction false} SumLengthsSnoc(bs: seq<Block>, b: Block)
    ensures SumLengths(bs + [b]) == SumLengths(bs) + b.1
    decreases |bs|
  {
    if bs == [] {
      assert [] + [b] == [b];
    } else {
      assert (bs + [b])[1..] == bs[1..] + [b];
      SumLengthsSnoc(bs[1..], b);
    }
  }

  /**
   * Shrinking keeps a body well-formed, never removes the first block, and takes off exactly
   * `amt` cells unless that would eat into the first block, which is then cut to no less than three.
   */
  lemma {:induction false} ShrunkWellFormed(blocks: seq<Block>, amt: nat)
    requires WellFormed(blocks)
    ensures WellFormed(Shrunk(blocks, amt))
    ensures Shrunk(blocks, amt)[0].0 == blocks[0].0
    ensures
      var total := SumLengths(blocks);
      SumLengths(Shrunk(blocks, amt)) ==
        if total - blocks[0].1 >= amt then total - amt else MaxInt(MinShrunkLength, total - amt)
    decreases |blocks|
  {
    var n := |blocks|;
    var init := blocks[..n - 1];
    assert blocks == init + [blocks[n - 1]];
    SumLengthsSnoc(init, blocks[n - 1]);
    if amt > 0 && n > 1 {
      if blocks[n - 1].1 <= amt {
        ShrunkWellFormed(init, amt - blocks[n - 1].1);
      } else {
        var r := blocks[n - 1 := (blocks[n - 1].0, blocks[n - 1].1 - amt)];
        assert r == init + [r[n - 1]];
        SumLengthsSnoc(init, r[n - 1]);
        assert SumLengths(init) >= init[0].1 by {
          assert SumLengths(init) == init[0].1 + SumLengths(init[1..]);
        }
      }
    } else if amt > 0 {
      assert init == [];
    }
  }

  /**
   * As written, a tail block exactly as long as what remains to be cut stays, with length zero,
   * at the end of the body.
   */
  lemma AsWrittenLeavesEmptyTail(blocks: seq<Block>, amt: nat)
    requires |blocks| > 1 && amt > 0 && blocks[|blocks| - 1].1 == amt
    ensures ShrunkAsWritten(blocks, amt) == blocks[|blocks| - 1 := (blocks[|blocks| - 1].0, 0)]
    ensures !WellFormed(ShrunkAsWritten(blocks, amt))
  {
  }

  /**
   * The input that shows it: a snake heading Up with body [(Up, 5), (Left, 10)] is shrunk to
   * [(Up, 5), (Left, 0)]; on its next move the tail block has no cell to give up, and the
   * `-= 1` at line 292 takes an unsigned zero below zero.
   */
  lemma AsWrittenShrinkThenMoveUnderflows()
    ensures ShrunkAsWritten([(Up, 5), (Left, 10)], ShrinkAmount) == [(Up, 5), (Left, 0)]
    ensures (GrowFront([(Up, 5), (Left, 0)], Up)[1].1 as int) - 1 < 0
    ensures Shrunk([(Up, 5), (Left, 10)], ShrinkAmount) == [(Up, 5)]
  {
  }

  function GrowTail(blocks: seq<Block>, k: nat): seq<Block>
    requires |blocks| >= 1
  {
    blocks[|blocks| - 1 := (blocks[|blocks| - 1].0, blocks[|blocks| - 1].1 + k)]
  }

  /** The snake a `Revive` puts on the board (lines 121-129). */
  function RevivedSnake(player: string): AliveSnake {
    AliveSnake(player, (BoardWidth / 2, BoardHeight / 2), Up, [(Down, 3)], Some(EffectTicks), None, false)
  }

  /** When a power-up takes effect, and so is paid for. */
  predicate Applies(snakes: map<string, Snake>, player: string, p: PowerUp)
    requires player in snakes && (p.Targeted() ==> p.opponent in snakes)
  {
    match p
    case ExtraLife => snakes[player].Alive?
    case AddLength => snakes[player].Alive?
    case ShrinkOpponent(o) => snakes[o].Alive?
    case FreezeOpponent(o) => snakes[o].Alive?
    case Revive => snakes[player].Dead?
  }

  /** The effect of one `UsePowerUp` (lines 76-135): `None` when it does not apply. */
  function PowerUpEffect(snakes: map<string, Snake>, player: string, p: PowerUp): (r: Option<map<string, Snake>>)
    requires player in snakes && (p.Targeted() ==> p.opponent in snakes)
    requires SnakesValid(snakes)
    ensures r.Some? <==> Applies(snakes, player, p)
    ensures r.Some? ==> r.value.Keys == snakes.Keys && SnakesValid(r.value)
  {
    match p
    case ExtraLife =>
      if snakes[player].Alive? then Some(snakes[player := Snake.Alive(snakes[player].snake.(hasExtraLife := true))])
      else None
    case AddLength =>
      if snakes[player].Alive? then
        var a := snakes[player].snake;
        Some(snakes[player := Snake.Alive(a.(blocks := GrowTail(a.blocks, AddLengthAmount)))])
      else None
    case FreezeOpponent(o) =>
      if snakes[o].Alive? then Some(snakes[o := Snake.Alive(snakes[o].snake.(frozenFor := Some(EffectTicks)))])
      else None
    case ShrinkOpponent(o) =>
      if snakes[o].Alive? then
        var a := snakes[o].snake;
        ShrunkWellFormed(a.blocks, ShrinkAmount);
        Some(snakes[o := Snake.Alive(a.(blocks := Shrunk(a.blocks, ShrinkAmount)))])
      else None
    case Revive =>
      if snakes[player].Dead? then Some(snakes[player := Snake.Alive(RevivedSnake(player))]) else None
  }

  /** The `should_charge` match of lines 76-135, with the shrinking loop. */
  method UsePowerUp(snakes: map<string, Snake>, player: string, p: PowerUp) returns (r: Option<map<string, Snake>>)
    requires player in snakes && (p.Targeted() ==> p.opponent in snakes)
    requires SnakesValid(snakes)
    ensures r == PowerUpEffect(snakes, player, p)
  {
    match p
    case ExtraLife =>
      r := if snakes[player].Alive? then Some(snakes[player := Snake.Alive(snakes[player].snake.(hasExtraLife := true))]) else None;
    case AddLength =>
      if snakes[player].Alive? {
        var a := snakes[player].snake;
        r := Some(snakes[player := Snake.Alive(a.(blocks := GrowTail(a.blocks, AddLengthAmount)))]);
      } else {
        r := None;
      }
    case FreezeOpponent(o) =>
      r := if snakes[o].Alive? then Some(snakes[o := Snake.Alive(snakes[o].snake.(frozenFor := Some(EffectTicks)))]) else None;
    case ShrinkOpponent(o) =>
      if snakes[o].Alive? {
        var a := snakes[o].snake;
        var shrunk := ShrinkBlocks(a.blocks);
        r := Some(snakes[o := Snake.Alive(a.(blocks := shrunk))]);
      } else {
        r := None;
      }
    case Revive =>
      r := if snakes[player].Dead? then Some(snakes[player := Snake.Alive(RevivedSnake(player))]) else None;
  }

  // ---------------------------------------------------------------- the batch of messages

  /** What the message loop carries: the snakes, the spending, and the power-ups used this tick. */
  datatype Round = Round(snakes: map<string, Snake>, spent: map<string, real>, used: seq<RecentPowerUp>)

  function SpentOf(spent: map<string, real>, p: string): real {
    if p in spent then spent[p] else 0.0
  }

  /** The sender, and the target of a targeted power-up, are players of the game. */
  predicate KnownIds(players: set<string>, m: GameIncomingMessage) {
    && m.playerId in players
    && (m.message.UsePowerUp? && m.message.powerUp.Targeted() ==> m.message.powerUp.opponent in players)
  }

  /** One message of the Playing phase (lines 73-152). */
  function StepMessage(r: Round, m: GameIncomingMessage, costs: PowerUpCosts): (r': Round)
    requires KnownIds(r.snakes.Keys, m) && SnakesValid(r.snakes)
    ensures r'.snakes.Keys == r.snakes.Keys && SnakesValid(r'.snakes)
    ensures r.spent.Keys <= r'.spent.Keys <= r.spent.Keys + {m.playerId}
  {
    match m.message
    case UsePowerUp(p) =>
      (match PowerUpEffect(r.snakes, m.playerId, p)
       case Some(snakes') =>
         Round(snakes', r.spent[m.playerId := SpentOf(r.spent, m.playerId) + GetCost(costs, p)],
               r.used + [RecentPowerUp(m.playerId, p)])
       case None => r)
    case SetDirection(d) =>
      SteerRule(r.snakes[m.playerId], d);
      Round(r.snakes[m.playerId := Steer(r.snakes[m.playerId], d)], r.spent, r.used)
    case Authenticate(_, _) => r
    case SetReady(_) => r
  }

  /** A power-up is paid for, and logged, exactly when it takes effect; nothing else is charged. */
  lemma ChargedIffApplied(r: Round, m: GameIncomingMessage, costs: PowerUpCosts)
    requires KnownIds(r.snakes.Keys, m) && SnakesValid(r.snakes) && m.message.UsePowerUp?
    ensures
      var p := m.message.powerUp;
      var r' := StepMessage(r, m, costs);
      if Applies(r.snakes, m.playerId, p) then
        && r'.spent == r.spent[m.playerId := SpentOf(r.spent, m.playerId) + GetCost(costs, p)]
        && r'.used == r.used + [RecentPowerUp(m.playerId, p)]
      else r' == r
  {
  }

  /** The message loop's effect on a whole batch. */
  function ApplyMessages(r: Round, msgs: seq<GameIncomingMessage>, costs: PowerUpCosts): (r': Round)
    requires SnakesValid(r.snakes) && forall i :: 0 <= i < |msgs| ==> KnownIds(r.snakes.Keys, msgs[i])
    ensures r'.snakes.Keys == r.snakes.Keys && SnakesValid(r'.snakes)
    ensures r.spent.Keys <= r'.spent.Keys <= r.spent.Keys + r.snakes.Keys
    decreases |msgs|
  {
    if msgs == [] then r
    else
      var n := |msgs|;
      var prev := ApplyMessages(r, msgs[..n - 1], costs);
      StepMessage(prev, msgs[n - 1], costs)
  }

  /** The body of the `for message in player_messages` loop of the Playing phase. */
  method HandleMessage(r0: Round, m: GameIncomingMessage, costs: PowerUpCosts) returns (r: Round)
    requires KnownIds(r0.snakes.Keys, m) && SnakesValid(r0.snakes)
    ensures r == StepMessage(r0, m, costs)
  {
    r := r0;
    match m.message {
      case UsePowerUp(p) =>
        var effect := UsePowerUp(r.snakes, m.playerId, p);
        if effect.Some? {
          r := Round(effect.value, r.spent[m.playerId := SpentOf(r.spent, m.playerId) + GetCost(costs, p)],
                     r.used + [RecentPowerUp(m.playerId, p)]);
        }
      case SetDirection(d) =>
        r := r.(snakes := r.snakes[m.playerId := Steer(r.snakes[m.playerId], d)]);
      case Authenticate(_, _) =>
      case SetReady(_) =>
    }
  }

  /** The `for message in player_messages` loop of the Playing phase. */
  method HandleMessages(r0: Round, msgs: seq<GameIncomingMessage>, costs: PowerUpCosts) returns (r: Round)
    requires SnakesValid(r0.snakes) && forall i :: 0 <= i < |msgs| ==> KnownIds(r0.snakes.Keys, msgs[i])
    ensures r == ApplyMessages(r0, msgs, costs)
  {
    r := r0;
    for i := 0 to |msgs|
      invariant r == ApplyMessages(r0, msgs[..i], costs)
    {
      assert msgs[..i + 1][..i] == msgs[..i];
      r := HandleMessage(r, msgs[i], costs);
    }
    assert msgs[..|msgs|] == msgs;
  }

  /** The summed price of the entries of a power-up log that `p` bought. */
  function LogCost(log: seq<RecentPowerUp>, p: string, costs: PowerUpCosts): real
    decreases |log|
  {
    if log == [] then 0.0
    else
      var n := |log|;
      LogCost(log[..n - 1], p, costs) + (if log[n - 1].userId == p then GetCost(costs, log[n - 1].powerUp) else 0.0)
  }

  /** One message keeps the log's older entries and charges `p` exactly the price of what it adds to the log. */
  lemma StepSpending(prev: Round, m: GameIncomingMessage, costs: PowerUpCosts, p: string, k: nat)
    requires KnownIds(prev.snakes.Keys, m) && SnakesValid(prev.snakes) && k <= |prev.used|
    ensures
      var r' := StepMessage(prev, m, costs);
      && k <= |r'.used| && r'.used[..k] == prev.used[..k]
      && SpentOf(r'.spent, p) - LogCost(r'.used[k..], p, costs) == SpentOf(prev.spent, p) - LogCost(prev.used[k..], p, costs)
  {
    var r' := StepMessage(prev, m, costs);
    if m.message.UsePowerUp? && Applies(prev.snakes, m.playerId, m.message.powerUp) {
      var e := RecentPowerUp(m.playerId, m.message.powerUp);
      assert r'.used == prev.used + [e];
      assert r'.used[k..] == prev.used[k..] + [e];
      assert r'.used[k..][..|r'.used[k..]| - 1] == prev.used[k..];
    }
  }

  /**
   * Over a whole batch the new log entries and the new spending agree: the log only grows,
   * and each player has been charged exactly the prices of the entries that name them.
   */
  lemma {:induction false} SpendingMatchesLog(r: Round, msgs: seq<GameIncomingMessage>, costs: PowerUpCosts, p: string)
    requires SnakesValid(r.snakes) && forall i :: 0 <= i < |msgs| ==> KnownIds(r.snakes.Keys, msgs[i])
    ensures
      var r' := ApplyMessages(r, msgs, costs);
      && |r.used| <= |r'.used| && r'.used[..|r.used|] == r.used
      && SpentOf(r'.spent, p) == SpentOf(r.spent, p) + LogCost(r'.used[|r.used|..], p, costs)
    decreases |msgs|
  {
    var k := |r.used|;
    if msgs == [] {
      assert r.used[k..] == [];
    } else {
      var n := |msgs|;
      var prev := ApplyMessages(r, msgs[..n - 1], costs);
      SpendingMatchesLog(r, msgs[..n - 1], costs, p);
      assert ApplyMessages(r, msgs, costs) == StepMessage(prev, msgs[n - 1], costs);
      StepSpending(prev, msgs[n - 1], costs, p, k);
    }
  }

  // ---------------------------------------------------------------- deaths

  /** A live snake with neither timer running can be killed (line 185). */
  predicate Vulnerable(s: Snake) {
    s.Alive? && s.snake.invulnerableFor.None? && s.snake.frozenFor.None?
  }

  /**
   * Whether the head of `id` lies on the body of another live snake (lines 186-195), the body
   * walked as the board wraps (see README, Findings). Its own body never kills a snake, and the
   * other snake's timers do not matter.
   */
  predicate HitsOther(snakes: map<string, Snake>, id: string)
    requires id in snakes && snakes[id].Alive?
  {
    exists other :: other in snakes && other != id && snakes[other].Alive? &&
      snakes[id].snake.head in BodyCells(snakes[other].snake)
  }

  predicate ShouldDie(snakes: map<string, Snake>, id: string) {
    id in snakes && Vulnerable(snakes[id]) && HitsOther(snakes, id)
  }

  /** What a hit does (lines 199-213): an extra life is spent for three seconds of protection, otherwise the snake dies where it is. */
  function Killed(s: Snake): Snake {
    match s
    case Alive(a) =>
      if a.hasExtraLife then Snake.Alive(a.(hasExtraLife := false, invulnerableFor := Some(EffectTicks)))
      else Snake.Dead(a.userId, a.head, Some(ReviveTicks))
    case Dead(_, _, _) => s
  }

  /** The death step: every snake that should die is hit, all judged on the snakes as they were before any hit. */
  function AfterDeaths(snakes: map<string, Snake>): (r: map<string, Snake>)
    ensures r.Keys == snakes.Keys
    ensures SnakesValid(snakes) ==> SnakesValid(r)
  {
    map id | id in snakes :: if ShouldDie(snakes, id) then Killed(snakes[id]) else snakes[id]
  }

  /** The inner loop of lines 186-195, with the board-wrapping walk. */
  method HitsAnyOther(snakes: map<string, Snake>, id: string) returns (hit: bool)
    requires id in snakes && snakes[id].Alive?
    ensures hit <==> HitsOther(snakes, id)
  {
    var head := snakes[id].snake.head;
    var others := snakes.Keys;
    while others != {}
      invariant others <= snakes.Keys
      invariant forall o :: o in snakes && o !in others && o != id && snakes[o].Alive? ==>
        head !in BodyCells(snakes[o].snake)
      decreases |others|
    {
      var o :| o in others;
      if o != id && snakes[o].Alive? {
        var overlap := DetectOverlapWith(BoardStep, head, snakes[o].snake);
        if overlap {
          return true;
        }
      }
      others := others - {o};
    }
    return false;
  }

  /** Lines 182-213: collect the snakes to kill, then hit each of them. */
  method ApplyDeaths(snakes: map<string, Snake>) returns (r: map<string, Snake>)
    ensures r == AfterDeaths(snakes)
  {
    var dead: set<string> := {};
    var todo := snakes.Keys;
    while todo != {}
      invariant todo <= snakes.Keys
      invariant forall id :: id in dead <==> id in snakes && id !in todo && ShouldDie(snakes, id)
      decreases |todo|
    {
      var id :| id in todo;
      if Vulnerable(snakes[id]) {
        var hit := HitsAnyOther(snakes, id);
        if hit {
          dead := dead + {id};
        }
      }
      todo := todo - {id};
    }
    r := snakes;
    var pending := dead;
    while pending != {}
      invariant pending <= dead
      invariant r.Keys == snakes.Keys
      invariant forall id :: id in r ==> r[id] == if id in dead && id !in pending then Killed(snakes[id]) else snakes[id]
      decreases |pending|
    {
      var id :| id in pending;
      r := r[id := Killed(snakes[id])];
      pending := pending - {id};
    }
  }

  /**
   * Only a vulnerable snake is hit; a hit snake with an extra life keeps its place, loses the
   * life and is protected for `EffectTicks`; without one it is dead at the same spot with the
   * full revive countdown.
   */
  lemma DeathRule(snakes: map<string, Snake>, id: string)
    requires id in snakes
    requires SnakeValid(id, snakes[id])
    ensures AfterDeaths(snakes)[id] != snakes[id] ==> ShouldDie(snakes, id)
    ensures ShouldDie(snakes, id) && snakes[id].snake.hasExtraLife ==>
      AfterDeaths(snakes)[id] == Snake.Alive(snakes[id].snake.(hasExtraLife := false, invulnerableFor := Some(EffectTicks)))
      && !Vulnerable(AfterDeaths(snakes)[id])
    ensures ShouldDie(snakes, id) && !snakes[id].snake.hasExtraLife ==>
      AfterDeaths(snakes)[id] == Snake.Dead(id, snakes[id].snake.head, Some(ReviveTicks))
  {
  }

  /** Two vulnerable snakes whose heads each lie on the other's body both take the hit: deaths are judged together. */
  lemma MutualHitKillsBoth(snakes: map<string, Snake>, a: string, b: string)
    requires a in snakes && b in snakes && a != b
    requires Vulnerable(snakes[a]) && Vulnerable(snakes[b])
    requires snakes[a].snake.head in BodyCells(snakes[b].snake)
    requires snakes[b].snake.head in BodyCells(snakes[a].snake)
    ensures AfterDeaths(snakes)[a] == Killed(snakes[a]) && AfterDeaths(snakes)[b] == Killed(snakes[b])
  {
    assert ShouldDie(snakes, a) by {
      assert b in snakes && b != a && snakes[b].Alive?;
    }
    assert ShouldDie(snakes, b) by {
      assert a in snakes && a != b && snakes[a].Alive?;
    }
  }

  /** A snake that is alone alive on the board cannot be hit. */
  lemma LoneSnakeSurvives(snakes: map<string, Snake>, id: string)
    requires id in snakes
    requires forall o :: o in snakes && o != id ==> snakes[o].Dead?
    ensures AfterDeaths(snakes)[id] == snakes[id]
  {
  }

  // ---------------------------------------------------------------- timers

  /** One tick of a countdown (lines 232-254): it counts down to zero, then stops on the next tick. */
  function DecayTimer(t: Option<nat>): Option<nat> {
    match t
    case None => None
    case Some(k) => if k > 0 then Some(k - 1) else None
  }

  function Decayed(s: Snake): (r: Snake)
    ensures r.UserId() == s.UserId() && r.Head() == s.Head() && r.Alive? == s.Alive?
    ensures r.Alive? ==> r.snake.blocks == s.snake.blocks && r.snake.headDirection == s.snake.headDirection
  {
    match s
    case Alive(a) => Snake.Alive(a.(invulnerableFor := DecayTimer(a.invulnerableFor), frozenFor := DecayTimer(a.frozenFor)))
    case Dead(u, h, t) => Snake.Dead(u, h, DecayTimer(t))
  }

  function DecayAll(snakes: map<string, Snake>): (r: map<string, Snake>)
    ensures r.Keys == snakes.Keys
    ensures SnakesValid(snakes) ==> SnakesValid(r)
  {
    map id | id in snakes :: Decayed(snakes[id])
  }

  /** The body of the loop of lines 230-256 for one snake. */
  method DecaySnake(s: Snake) returns (r: Snake)
    ensures r == Decayed(s)
  {
    r := s;
    match s {
      case Alive(a) =>
        var inv := a.invulnerableFor;
        if inv.Some? {
          inv := if inv.value > 0 then Some(inv.value - 1) else None;
        }
        var frozen := a.frozenFor;
        if frozen.Some? {
          frozen := if frozen.value > 0 then Some(frozen.value - 1) else None;
        }
        r := Snake.Alive(a.(invulnerableFor := inv, frozenFor := frozen));
      case Dead(u, h, t) =>
        if t.Some? {
          r := Snake.Dead(u, h, if t.value == 0 then None else Some(t.value - 1));
        }
    }
  }

  /** The loop of lines 230-256. */
  method DecayTimers(snakes: map<string, Snake>) returns (r: map<string, Snake>)
    ensures r == DecayAll(snakes)
  {
    r := snakes;
    var todo := snakes.Keys;
    while todo != {}
      invariant todo <= snakes.Keys && r.Keys == snakes.Keys
      invariant forall id :: id in r ==> r[id] == if id in todo then snakes[id] else Decayed(snakes[id])
      decreases |todo|
    {
      var id :| id in todo;
      var s := DecaySnake(r[id]);
      r := r[id := s];
      todo := todo - {id};
    }
  }

  function DecayTimes(t: Option<nat>, n: nat): Option<nat>
    decreases n
  {
    if n == 0 then t else DecayTimes(DecayTimer(t), n - 1)
  }

  lemma {:induction false} CountsDown(k: nat, m: nat)
    requires m <= k
    ensures DecayTimes(Some(k), m) == Some(k - m)
    decreases m
  {
    if m > 0 {
      CountsDown(k - 1, m - 1);
    }
  }

  lemma {:induction false} DecayTimesLast(t: Option<nat>, n: nat)
    ensures DecayTimes(t, n + 1) == DecayTimer(DecayTimes(t, n))
    decreases n
  {
    if n > 0 {
      DecayTimesLast(DecayTimer(t), n - 1);
    }
  }

  /** A timer set to `k` still runs after `k` ticks, reading zero, and is gone after `k + 1`. */
  lemma TimerRunsOut(k: nat)
    ensures DecayTimes(Some(k), k) == Some(0)
    ensures DecayTimes(Some(k), k + 1) == None
    ensures forall m :: 0 <= m <= k ==> DecayTimes(Some(k), m).Some?
  {
    CountsDown(k, k);
    DecayTimesLast(Some(k), k);
    forall m | 0 <= m <= k
      ensures DecayTimes(Some(k), m).Some?
    {
      CountsDown(k, m);
    }
  }

  // ---------------------------------------------------------------- the winner

  /** Still in the game: alive, or dead with a revive countdown running (lines 258-264). */
  predicate InContention(s: Snake) {
    s.Alive? || s.ticksToRevive.Some?
  }

  /** The players of `order` still in contention, in that order. */
  function Contenders(snakes: map<string, Snake>, order: seq<string>): (c: seq<string>)
    requires forall i :: 0 <= i < |order| ==> order[i] in snakes
    ensures forall x :: x in c <==> x in order && InContention(snakes[x])
    ensures |c| <= |order|
    decreases |order|
  {
    if order == [] then []
    else if InContention(snakes[order[0]]) then [order[0]] + Contenders(snakes, order[1..])
    else Contenders(snakes, order[1..])
  }

  /**
   * Lines 258-269: the only contender wins; with none left, the first snake in the map's order
   * wins; otherwise play goes on.
   */
  function Winner(snakes: map<string, Snake>, order: seq<string>): (w: Option<string>)
    requires |order| > 0 && forall i :: 0 <= i < |order| ==> order[i] in snakes
    ensures w.Some? ==> w.value in order
  {
    var c := Contenders(snakes, order);
    if |c| == 1 then Some(c[0]) else if |c| == 0 then Some(order[0]) else None
  }

  predicate Distinct<T(==)>(s: seq<T>) {
    forall i, j :: 0 <= i < j < |s| ==> s[i] != s[j]
  }

  lemma {:induction false} ContendersDistinct(snakes: map<string, Snake>, order: seq<string>)
    requires forall i :: 0 <= i < |order| ==> order[i] in snakes
    requires Distinct(order)
    ensures Distinct(Contenders(snakes, order))
    decreases |order|
  {
    if order != [] {
      ContendersDistinct(snakes, order[1..]);
    }
  }

  lemma {:induction false} DistinctCard<T>(s: seq<T>)
    requires Distinct(s)
    ensures |set x | x in s| == |s|
    decreases |s|
  {
    if s != [] {
      DistinctCard(s[1..]);
      assert (set x | x in s) == {s[0]} + (set x | x in s[1..]);
    }
  }

  /**
   * Read on the players still in contention, whatever the map's order: play stops exactly when
   * at most one is left, and a sole contender is the winner.
   */
  lemma WinnerRule(snakes: map<string, Snake>, order: seq<string>)
    requires |order| > 0 && Distinct(order) && forall i :: 0 <= i < |order| ==> order[i] in snakes
    requires forall id :: id in snakes ==> id in order
    ensures
      var alive := set id | id in snakes && InContention(snakes[id]);
      && (Winner(snakes, order).Some? <==> |alive| <= 1)
      && (forall w :: alive == {w} ==> Winner(snakes, order) == Some(w))
      && (alive == {} ==> Winner(snakes, order) == Some(order[0]))
  {
    var c := Contenders(snakes, order);
    ContendersDistinct(snakes, order);
    DistinctCard(c);
    assert (set id | id in snakes && InContention(snakes[id])) == (set x | x in c);
    if |c| == 1 {
      assert (set x | x in c) == {c[0]};
    }
  }

  // ---------------------------------------------------------------- movement

  /** Lines 273-297: a live snake that is not frozen advances one cell; dead and frozen snakes stay. */
  function MoveSnake(s: Snake): (r: Snake)
    requires s.Alive? ==> WellFormed(s.snake.blocks)
    ensures r.UserId() == s.UserId() && r.Alive? == s.Alive?
    ensures OnBoard(s.Head()) ==> OnBoard(r.Head())
    ensures r.Alive? ==> WellFormed(r.snake.blocks) && SumLengths(r.snake.blocks) == SumLengths(s.snake.blocks)
  {
    match s
    case Dead(_, _, _) => s
    case Alive(a) =>
      if a.frozenFor.Some? then s
      else
        MoveKeepsLength(a.blocks, a.headDirection);
        Snake.Alive(a.(head := MoveHead(a.head, a.headDirection), blocks := MoveBlocks(a.blocks, a.headDirection)))
  }

  /**
   * A moving snake's head advances one cell in its heading, wrapping at the board edges, and
   * its body follows: the new cells are the new head followed by all old cells but the last.
   */
  lemma MoveSnakeRule(s: Snake)
    requires s.Alive? && s.snake.frozenFor.None? && OnBoard(s.snake.head) && WellFormed(s.snake.blocks)
    ensures MoveSnake(s).snake.head == MoveHead(s.snake.head, s.snake.headDirection)
    ensures
      var cells := BodyCells(s.snake);
      |cells| >= 1 && BodyCells(MoveSnake(s).snake) == [MoveSnake(s).snake.head] + cells[..|cells| - 1]
  {
    MoveFollowsHead(s.snake.head, s.snake.blocks, s.snake.headDirection);
  }

  function MoveAll(snakes: map<string, Snake>): (r: map<string, Snake>)
    requires SnakesValid(snakes)
    ensures r.Keys == snakes.Keys && SnakesValid(r)
  {
    map id | id in snakes :: MoveSnake(snakes[id])
  }

  /** The body of the loop of lines 273-297 for a snake that moves. */
  method Advance(a: AliveSnake) returns (r: AliveSnake)
    requires a.frozenFor.None? && WellFormed(a.blocks)
    ensures Snake.Alive(r) == MoveSnake(Snake.Alive(a))
  {
    var head := MoveHead(a.head, a.headDirection);
    var blocks := a.blocks;
    if a.headDirection != blocks[0].0 {
      blocks := [(a.headDirection, 0)] + blocks;
    }
    blocks := blocks[0 := (blocks[0].0, blocks[0].1 + 1)];
    ghost var grown := blocks;
    assert grown == GrowFront(a.blocks, a.headDirection);
    var n := |blocks|;
    assert blocks[n - 1].1 >= 1 by {
      assert a.blocks[|a.blocks| - 1].1 >= 1;
    }
    blocks := blocks[n - 1 := (blocks[n - 1].0, blocks[n - 1].1 - 1)];
    if blocks[n - 1].1 == 0 {
      blocks := blocks[..n - 1];
    }
    assert blocks == DropTailCell(grown);
    r := a.(head := head, blocks := blocks);
  }

  /** The loop of lines 273-297. */
  method MoveSnakes(snakes: map<string, Snake>) returns (r: map<string, Snake>)
    requires SnakesValid(snakes)
    ensures r == MoveAll(snakes)
  {
    r := snakes;
    var todo := snakes.Keys;
    while todo != {}
      invariant todo <= snakes.Keys && r.Keys == snakes.Keys
      invariant forall id :: id in r ==> r[id] == if id in todo then snakes[id] else MoveSnake(snakes[id])
      decreases |todo|
    {
      var id :| id in todo;
      var s := r[id];
      if s.Alive? && s.snake.frozenFor.None? {
        var a := Advance(s.snake);
        r := r[id := Snake.Alive(a)];
      }
      todo := todo - {id};
    }
  }

  // ---------------------------------------------------------------- apples

  /**
   * What the random top-up of lines 156-179 can produce: exactly as many apples as the board is
   * short of `NumApples`, each on the board and, as `detect_overlap` walks bodies, off every
   * live snake.
   */
  predicate FreshApples(snakes: map<string, Snake>, apples: seq<Point>, newApples: seq<Point>) {
    && |newApples| == (if |apples| < NumApples then NumApples - |apples| else 0)
    && forall p :: p in newApples ==>
         && OnBoard(p)
         && forall id :: id in snakes && snakes[id].Alive? ==> p !in Cells(RawStep, snakes[id].snake.head, snakes[id].snake.blocks)
  }

  predicate HeadOn(s: Snake, p: Point) {
    s.Alive? && s.snake.head == p
  }

  /** The snake that eats the apple at `p`: the first live snake of `order` with its head there. */
  function Eater(snakes: map<string, Snake>, order: seq<string>, p: Point): (r: Option<string>)
    requires forall i :: 0 <= i < |order| ==> order[i] in snakes
    ensures r.Some? ==> exists i :: 0 <= i < |order| && order[i] == r.value && HeadOn(snakes[order[i]], p) &&
                                    forall j :: 0 <= j < i ==> !HeadOn(snakes[order[j]], p)
    ensures r.None? <==> forall i :: 0 <= i < |order| ==> !HeadOn(snakes[order[i]], p)
    decreases |order|
  {
    if order == [] then None
    else if HeadOn(snakes[order[0]], p) then Some(order[0])
    else
      var r := Eater(snakes, order[1..], p);
      if r.Some? then
        ghost var i :| 0 <= i < |order[1..]| && order[1..][i] == r.value && HeadOn(snakes[order[1..][i]], p) &&
                       forall j :: 0 <= j < i ==> !HeadOn(snakes[order[1..][j]], p);
        assert order[i + 1] == r.value && forall j :: 0 <= j < i + 1 ==> !HeadOn(snakes[order[j]], p) by {
          forall j | 0 <= j < i + 1
            ensures !HeadOn(snakes[order[j]], p)
          {
            if j > 0 {
              assert order[j] == order[1..][j - 1];
            }
          }
        }
        r
      else
        assert forall i :: 0 <= i < |order| ==> !HeadOn(snakes[order[i]], p) by {
          forall i | 0 <= i < |order|
            ensures !HeadOn(snakes[order[i]], p)
          {
            if i > 0 {
              assert order[i] == order[1..][i - 1];
            }
          }
        }
        r
  }

  /** A snake with its tail block `k` cells longer (line 221); a dead snake is left alone. */
  function Grown(s: Snake, k: nat): (r: Snake)
    ensures r.UserId() == s.UserId() && r.Head() == s.Head() && r.Alive? == s.Alive?
  {
    match s
    case Alive(a) => if |a.blocks| >= 1 then Snake.Alive(a.(blocks := GrowTail(a.blocks, k))) else s
    case Dead(_, _, _) => s
  }

  lemma GrownAdds(s: Snake, j: nat, k: nat)
    ensures Grown(Grown(s, j), k) == Grown(s, j + k)
    ensures Grown(s, 0) == s
  {
    if s.Alive? && |s.snake.blocks| >= 1 {
      assert GrowTail(s.snake.blocks, 0) == s.snake.blocks;
    }
  }

  /** Same keys, same live and dead snakes, same heads: what decides who eats. */
  predicate SameHeads(a: map<string, Snake>, b: map<string, Snake>) {
    a.Keys == b.Keys && forall id :: id in a ==> a[id].Alive? == b[id].Alive? && a[id].Head() == b[id].Head()
  }

  lemma {:induction false} EaterSameHeads(a: map<string, Snake>, b: map<string, Snake>, order: seq<string>, p: Point)
    requires SameHeads(a, b) && forall i :: 0 <= i < |order| ==> order[i] in a
    ensures Eater(a, order, p) == Eater(b, order, p)
    decreases |order|
  {
    if order != [] {
      EaterSameHeads(a, b, order[1..], p);
    }
  }

  /** One apple of the `retain` pass: the first live snake with its head on it eats it and grows. */
  function EatOne(snakes: map<string, Snake>, order: seq<string>, p: Point): (r: (map<string, Snake>, bool))
    requires forall i :: 0 <= i < |order| ==> order[i] in snakes
    requires SnakesValid(snakes)
    ensures SameHeads(snakes, r.0) && SnakesValid(r.0)
    ensures r.1 <==> Eater(snakes, order, p).Some?
    ensures forall id :: id in snakes ==> r.0[id] == if Eater(snakes, order, p) == Some(id) then Grown(snakes[id], AppleGrowth) else snakes[id]
  {
    match Eater(snakes, order, p)
    case Some(e) => (snakes[e := Grown(snakes[e], AppleGrowth)], true)
    case None => (snakes, false)
  }

  /** The `apples.retain` pass of lines 216-227: the snakes after eating and the apples left. */
  function EatApples(snakes: map<string, Snake>, apples: seq<Point>, order: seq<string>): (r: (map<string, Snake>, seq<Point>))
    requires forall i :: 0 <= i < |order| ==> order[i] in snakes
    requires SnakesValid(snakes)
    ensures SameHeads(snakes, r.0) && SnakesValid(r.0)
    ensures forall p :: p in r.1 ==> p in apples
    decreases |apples|
  {
    if apples == [] then (snakes, [])
    else
      var n := |apples|;
      var prev := EatApples(snakes, apples[..n - 1], order);
      var one := EatOne(prev.0, order, apples[n - 1]);
      (one.0, if one.1 then prev.1 else prev.1 + [apples[n - 1]])
  }

  /** The apples no live head lies on, in their order. */
  function Uneaten(snakes: map<string, Snake>, apples: seq<Point>): seq<Point>
    decreases |apples|
  {
    if apples == [] then []
    else
      var n := |apples|;
      Uneaten(snakes, apples[..n - 1]) +
        (if exists id :: id in snakes && HeadOn(snakes[id], apples[n - 1]) then [] else [apples[n - 1]])
  }

  /** How many cells the snake `id` grows by eating from `apples`: `AppleGrowth` for each apple it eats. */
  function GrowthFrom(snakes: map<string, Snake>, order: seq<string>, apples: seq<Point>, id: string): nat
    requires forall i :: 0 <= i < |order| ==> order[i] in snakes
    decreases |apples|
  {
    if apples == [] then 0
    else
      var n := |apples|;
      GrowthFrom(snakes, order, apples[..n - 1], id) + (if Eater(snakes, order, apples[n - 1]) == Some(id) then AppleGrowth else 0)
  }

  lemma EaterNoneIffNoHead(snakes: map<string, Snake>, order: seq<string>, p: Point)
    requires forall i :: 0 <= i < |order| ==> order[i] in snakes
    requires forall id :: id in snakes ==> id in order
    ensures Eater(snakes, order, p).None? <==> !exists id :: id in snakes && HeadOn(snakes[id], p)
  {
    if Eater(snakes, order, p).None? {
      forall id | id in snakes
        ensures !HeadOn(snakes[id], p)
      {
        var i :| 0 <= i < |order| && order[i] == id;
      }
    }
  }

  /** Eating, stated on the snakes as they were: an apple stays exactly when no live head lies on it. */
  lemma {:induction false} EatApplesKeeps(snakes: map<string, Snake>, apples: seq<Point>, order: seq<string>)
    requires forall i :: 0 <= i < |order| ==> order[i] in snakes
    requires forall id :: id in snakes ==> id in order
    requires SnakesValid(snakes)
    ensures EatApples(snakes, apples, order).1 == Uneaten(snakes, apples)
    decreases |apples|
  {
    if apples != [] {
      var n := |apples|;
      var prev := EatApples(snakes, apples[..n - 1], order);
      EatApplesKeeps(snakes, apples[..n - 1], order);
      EaterSameHeads(snakes, prev.0, order, apples[n - 1]);
      EaterNoneIffNoHead(snakes, order, apples[n - 1]);
    }
  }

  /**
   * Each snake's tail grows by `AppleGrowth` cells for every apple it eats, and nothing else
   * about it changes; who eats is decided on the snakes as they were.
   */
  lemma {:induction false} EatApplesGrows(snakes: map<string, Snake>, apples: seq<Point>, order: seq<string>, id: string)
    requires forall i :: 0 <= i < |order| ==> order[i] in snakes
    requires SnakesValid(snakes) && id in snakes
    ensures EatApples(snakes, apples, order).0[id] == Grown(snakes[id], GrowthFrom(snakes, order, apples, id))
    decreases |apples|
  {
    if apples == [] {
      GrownAdds(snakes[id], 0, 0);
    } else {
      var n := |apples|;
      var prev := EatApples(snakes, apples[..n - 1], order);
      EatApplesGrows(snakes, apples[..n - 1], order, id);
      var a := apples[n - 1];
      EaterSameHeads(snakes, prev.0, order, a);
      var k := GrowthFrom(snakes, order, apples[..n - 1], id);
      var one := EatOne(prev.0, order, a);
      assert EatApples(snakes, apples, order) == (one.0, if one.1 then prev.1 else prev.1 + [a]);
      if Eater(snakes, order, a) == Some(id) {
        assert GrowthFrom(snakes, order, apples, id) == k + AppleGrowth;
        assert one.0[id] == Grown(prev.0[id], AppleGrowth);
        GrownAdds(snakes[id], k, AppleGrowth);
      } else {
        assert GrowthFrom(snakes, order, apples, id) == k;
        assert one.0[id] == prev.0[id];
      }
    }
  }

  /** The `apples.retain` pass of lines 216-227. */
  method EatApplesStep(snakes: map<string, Snake>, apples: seq<Point>, order: seq<string>) returns (s: map<string, Snake>, kept: seq<Point>)
    requires forall i :: 0 <= i < |order| ==> order[i] in snakes
    requires SnakesValid(snakes)
    ensures (s, kept) == EatApples(snakes, apples, order)
  {
    s, kept := snakes, [];
    for i := 0 to |apples|
      invariant (s, kept) == EatApples(snakes, apples[..i], order)
    {
      assert apples[..i + 1][..i] == apples[..i];
      var apple := apples[i];
      ghost var old_s := s;
      var eater: Option<string> := None;
      var j := 0;
      while j < |order| && eater.None?
        invariant 0 <= j <= |order|
        invariant eater.None? ==> Eater(s, order, apple) == Eater(s, order[j..], apple)
        invariant eater.Some? ==> eater == Eater(s, order, apple)
      {
        assert order[j..][0] == order[j] && order[j..][1..] == order[j + 1..];
        var t := s[order[j]];
        if t.Alive? && t.snake.head == apple {
          eater := Some(order[j]);
        }
        j := j + 1;
      }
      match eater {
        case Some(id) =>
          s := s[id := Grown(s[id], AppleGrowth)];
        case None =>
          kept := kept + [apple];
      }
      assert (s, eater.Some?) == EatOne(old_s, order, apple);
    }
    assert apples[..|apples|] == apples;
  }

  // ---------------------------------------------------------------- the walk at the board edge

  /**
   * The input that shows it: a snake at (0, 10) heading Left with body [(Left, 3)] moves and
   * wraps to (99, 10), its body now on (99, 10), (0, 10) and (1, 10). Walked as `detect_overlap`
   * writes it, the body runs off the board to (100, 10) and (101, 10), so a head on (0, 10) is
   * not seen to hit it; walked as the board wraps, it is.
   */
  lemma AsWrittenWalkMissesWrappedBody()
    ensures MoveHead((0, 10), Left) == (99, 10)
    ensures MoveBlocks([(Left, 3)], Left) == [(Left, 3)]
    ensures Cells(RawStep, (99, 10), [(Left, 3)]) == [(99, 10), (100, 10), (101, 10)]
    ensures Cells(BoardStep, (99, 10), [(Left, 3)]) == [(99, 10), (0, 10), (1, 10)]
  {
    assert Cells(RawStep, (99, 10), [(Left, 3)]) == Run(RawStep, (99, 10), Left, 3) + Cells(RawStep, End(RawStep, (99, 10), [(Left, 3)]), []);
    assert Cells(BoardStep, (99, 10), [(Left, 3)]) == Run(BoardStep, (99, 10), Left, 3) + Cells(BoardStep, End(BoardStep, (99, 10), [(Left, 3)]), []);
  }

  // ---------------------------------------------------------------- listings in map order

  /** `order` lists each key of the map exactly once: a `HashMap`'s iteration order. */
  predicate IsOrderOf(order: seq<string>, keys: set<string>) {
    && Distinct(order)
    && (forall i :: 0 <= i < |order| ==> order[i] in keys)
    && (forall k :: k in keys ==> k in order)
  }

  function ReadyList(ready: map<string, bool>, order: seq<string>): (r: seq<ReadyStatus>)
    requires forall i :: 0 <= i < |order| ==> order[i] in ready
    ensures |r| == |order| && forall i :: 0 <= i < |order| ==> r[i].userId == order[i] && r[i].ready == ready[order[i]]
  {
    seq(|order|, i requires 0 <= i < |order| => ReadyStatus.ReadyStatus(order[i], ready[order[i]]))
  }

  function SentList(snakes: map<string, Snake>, order: seq<string>): (r: seq<SentSnake>)
    requires forall i :: 0 <= i < |order| ==> order[i] in snakes
    ensures |r| == |order| && forall i :: 0 <= i < |order| ==> r[i] == ToSent(snakes[order[i]])
  {
    seq(|order|, i requires 0 <= i < |order| => ToSent(snakes[order[i]]))
  }

  function SpentList(spent: map<string, real>, order: seq<string>): (r: seq<(string, real)>)
    requires forall i :: 0 <= i < |order| ==> order[i] in spent
    ensures |r| == |order| && forall i :: 0 <= i < |order| ==> r[i] == (order[i], spent[order[i]])
  {
    seq(|order|, i requires 0 <= i < |order| => (order[i], spent[order[i]]))
  }

  function AmountsSent(list: seq<(string, real)>): (r: seq<AmountSpent>)
    ensures |r| == |list| && forall i :: 0 <= i < |list| ==> r[i] == AmountSpent(list[i].0, list[i].1)
  {
    seq(|list|, i requires 0 <= i < |list| => AmountSpent(list[i].0, list[i].1))
  }

  /** The ready listing names every player of the table exactly once, each with its own flag. */
  lemma ReadyListCovers(ready: map<string, bool>, order: seq<string>)
    requires IsOrderOf(order, ready.Keys)
    ensures var r := ReadyList(ready, order);
      && |r| == |ready.Keys|
      && (forall k :: k in ready <==> exists i :: 0 <= i < |r| && r[i].userId == k)
      && (forall i, j :: 0 <= i < j < |r| ==> r[i].userId != r[j].userId)
      && (forall i :: 0 <= i < |r| ==> r[i].userId in ready && r[i].ready == ready[r[i].userId])
  {
    ListingCoversMap(ready, order);
    var r := ReadyList(ready, order);
    forall k | k in ready
      ensures exists i :: 0 <= i < |r| && r[i].userId == k
    {
      var i :| 0 <= i < |order| && order[i] == k;
      assert r[i].userId == k;
    }
  }

  /** The snake listing of an update shows every player's snake exactly once. */
  lemma SentListCovers(snakes: map<string, Snake>, order: seq<string>)
    requires SnakesValid(snakes) && IsOrderOf(order, snakes.Keys)
    ensures var r := SentList(snakes, order);
      && |r| == |snakes.Keys|
      && (forall k :: k in snakes <==> exists i :: 0 <= i < |r| && r[i].userId == k)
      && (forall i, j :: 0 <= i < j < |r| ==> r[i].userId != r[j].userId)
      && (forall i :: 0 <= i < |r| ==> r[i].userId in snakes && r[i] == ToSent(snakes[r[i].userId]))
  {
    ListingCoversMap(snakes, order);
    var r := SentList(snakes, order);
    forall i | 0 <= i < |r|
      ensures r[i].userId == order[i]
    {
      assert SnakeValid(order[i], snakes[order[i]]);
    }
    forall k | k in snakes
      ensures exists i :: 0 <= i < |r| && r[i].userId == k
    {
      var i :| 0 <= i < |order| && order[i] == k;
      assert r[i].userId == k;
    }
  }

  /** The spending listing of a result names every player exactly once, with what it spent. */
  lemma SpentListCovers(spent: map<string, real>, order: seq<string>)
    requires IsOrderOf(order, spent.Keys)
    ensures var r := SpentList(spent, order);
      && |r| == |spent.Keys|
      && (forall k :: k in spent <==> exists i :: 0 <= i < |r| && r[i].0 == k)
      && (forall i, j :: 0 <= i < j < |r| ==> r[i].0 != r[j].0)
      && (forall i :: 0 <= i < |r| ==> r[i].0 in spent && r[i].1 == spent[r[i].0])
  {
    ListingCoversMap(spent, order);
    var r := SpentList(spent, order);
    forall k | k in spent
      ensures exists i :: 0 <= i < |r| && r[i].0 == k
    {
      var i :| 0 <= i < |order| && order[i] == k;
      assert r[i].0 == k;
    }
  }

  /** The pairs a `GameOver` message carries, read back off the wire. */
  function AmountsReceived(sent: seq<AmountSpent>): (r: seq<(string, real)>)
    ensures |r| == |sent|
  {
    seq(|sent|, i requires 0 <= i < |sent| => (sent[i].userId, sent[i].amountSpent))
  }

  /** Conversion to the wire loses nothing: reading the amounts back gives the list that was sent. */
  lemma AmountsRoundTrip(list: seq<(string, real)>)
    ensures AmountsReceived(AmountsSent(list)) == list
  {
    var back := AmountsReceived(AmountsSent(list));
    forall i | 0 <= i < |list|
      ensures back[i] == list[i]
    {
      assert AmountsSent(list)[i] == AmountSpent(list[i].0, list[i].1);
    }
  }

  /** Each listing in an order of the map's keys names every entry once: nothing is lost or repeated. */
  lemma ListingCoversMap<T>(m: map<string, T>, order: seq<string>)
    requires IsOrderOf(order, m.Keys)
    ensures |order| == |m.Keys|
  {
    DistinctCard(order);
    assert (set x | x in order) == m.Keys;
  }
}
