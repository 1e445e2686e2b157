/**
 * Properties of play: the invariant every click keeps, when the game ends
 * and what it means, and what flags and repeated clicks do.
 */
module Game {
  import opened SeqSets
  import opened Coords
  import opened Placement
  import opened Engine
  import opened FloodRegion

  /** A tile with no nearby mines has no mine among its neighbours. */
  lemma NoMineNextToZero(mines: set<Pos>, p: Pos, n: Pos)
    requires MinesAround(mines, p) == 0 && Adjacent(p, n)
    ensures n !in mines
  {
    var around := set m | m in mines && Adjacent(p, m);
    assert n in mines ==> n in around;
    assert |around| == 0;
  }

  /** Board.on_left_click keeps the invariant. */
  lemma LeftClickInv(b: Board, p: Pos)
    requires Inv(b) && (b.gameOver || InGrid(b.dim, p))
    ensures Inv(LeftClick(b, p))
  {
    if !b.gameOver && p !in b.revealed {
      if p in b.mines {
        MineClickInv(b, LeftClick(b, p));
      } else {
        SafeClickInv(b, LeftClick(b, p));
      }
    }
  }

  /** Revealing every mine and ending the game keeps the invariant. */
  lemma MineClickInv(b: Board, r: Board)
    requires Inv(b)
    requires r.gameOver && r.revealed == b.revealed + b.mines && r.flagged == b.flagged - b.mines
    requires r == b.(revealed := r.revealed, flagged := r.flagged, gameOver := true)
    ensures Inv(r)
  {
    assert r.revealed - r.mines == b.revealed - b.mines;
    ClosedOverMono(b, r, b.revealed - b.mines);
  }

  /** Revealing safe tiles, spreading from those with no nearby mines, keeps the invariant. */
  lemma SafeClickInv(b: Board, r: Board)
    requires Inv(b) && !b.gameOver && Wf(r)
    requires Extends(b, r.(gameOver := false))
    requires ClosedOver(r, r.revealed - b.revealed)
    ensures Inv(r)
  {
    var added := r.revealed - b.revealed;
    assert r.revealed - r.mines == (b.revealed - b.mines) + added;
    assert (b.revealed - b.mines) !! added;
    ClosedOverMono(b, r, b.revealed - b.mines);
    ClosedOverUnion(r, b.revealed - b.mines, added);
  }

  /** Board.on_right_click keeps the invariant. */
  lemma RightClickInv(b: Board, p: Pos)
    requires Inv(b) && (b.gameOver || InGrid(b.dim, p))
    ensures Inv(RightClick(b, p))
  {
    ClosedOverMono(b, RightClick(b, p), b.revealed - b.mines);
  }

  /** The safe tiles of a board number dim * dim - mineCount. */
  lemma SafeTileCount(b: Board)
    requires Inv(b)
    ensures |Grid(b.dim) - b.mines| == b.dim * b.dim - b.mineCount
  {
    GridSize(b.dim);
    DiffCard({}, b.mines, Grid(b.dim));
  }

  /** A safe click ends the game exactly when afterwards every safe tile is revealed. */
  lemma VictoryExact(b: Board, p: Pos)
    requires Inv(b) && !b.gameOver && InGrid(b.dim, p) && p !in b.revealed && p !in b.mines
    ensures LeftClick(b, p).gameOver <==> Grid(b.dim) - b.mines <= LeftClick(b, p).revealed
  {
    LeftClickInv(b, p);
    VictoryCount(b, LeftClick(b, p));
  }

  /** The counter reaches dim * dim - mineCount exactly when every safe tile is revealed. */
  lemma VictoryCount(b: Board, r: Board)
    requires Inv(b) && Inv(r) && r.dim == b.dim && r.mines == b.mines && r.mineCount == b.mineCount
    ensures r.clickCount == b.dim * b.dim - b.mineCount <==> Grid(b.dim) - b.mines <= r.revealed
  {
    SafeTileCount(b);
    SubsetCard(r.revealed - b.mines, Grid(b.dim) - b.mines);
    if Grid(b.dim) - b.mines <= r.revealed {
      assert r.revealed - b.mines == Grid(b.dim) - b.mines;
    }
  }

  /** A left click that ends the game is either a loss on a mine, with every
      mine shown and the counter unchanged, or a victory with every safe tile
      revealed and no mine shown. */
  lemma GameOverMeans(b: Board, p: Pos)
    requires Inv(b) && !b.gameOver && InGrid(b.dim, p)
    requires LeftClick(b, p).gameOver
    ensures p in b.mines ==> b.mines <= LeftClick(b, p).revealed && LeftClick(b, p).clickCount == b.clickCount
    ensures p !in b.mines ==> Grid(b.dim) - b.mines <= LeftClick(b, p).revealed && LeftClick(b, p).revealed !! b.mines
  {
    if p !in b.mines {
      VictoryExact(b, p);
    }
  }

  /** Clicking a tile with no nearby mines reveals all its neighbours in one call. */
  lemma ZeroRevealsNeighbours(b: Board, p: Pos)
    requires Inv(b) && !b.gameOver && InGrid(b.dim, p) && p !in b.revealed && p !in b.mines
    requires b.nearby[p] == 0
    ensures forall n :: InGrid(b.dim, n) && Adjacent(p, n) ==> n in LeftClick(b, p).revealed
  {
    var r := LeftClick(b, p);
    assert Settled(r, p);
    forall n | InGrid(b.dim, n) && Adjacent(p, n)
      ensures n in r.revealed
    {
      NoMineNextToZero(b.mines, p, n);
    }
  }

  /** Flags play no part in a left click: the same tiles are revealed and
      counted, and the game ends the same way, whatever is flagged. */
  lemma LeftClickIgnoresFlags(b: Board, p: Pos, f: set<Pos>)
    requires Wf(b) && (b.gameOver || InGrid(b.dim, p)) && f <= Grid(b.dim)
    ensures LeftClick(b.(flagged := f), p).(flagged := {}) == LeftClick(b, p).(flagged := {})
  {
    if !b.gameOver && p !in b.revealed && p !in b.mines && b.nearby[p] == 0 {
      FloodIgnoresFlags(b, p, f);
    }
  }

  /** A second left click on the same tile changes nothing. */
  lemma LeftClickIdempotent(b: Board, p: Pos)
    requires Wf(b) && (b.gameOver || InGrid(b.dim, p))
    ensures LeftClick(LeftClick(b, p), p) == LeftClick(b, p)
  {
  }

  /** Two right clicks on the same tile restore the board. */
  lemma RightClickTwice(b: Board, p: Pos)
    requires b.gameOver || InGrid(b.dim, p)
    ensures RightClick(RightClick(b, p), p) == b
  {
  }

  /** A mouse click bound to a tile's button: button 1 or button 3. */
  datatype Click = Left(pos: Pos) | Right(pos: Pos)

  /** Every click of the sequence is on a tile of a dim x dim board. */
  predicate OnBoard(dim: int, clicks: seq<Click>) {
    forall i :: 0 <= i < |clicks| ==> InGrid(dim, clicks[i].pos)
  }

  /** The handler bound to the button of the clicked tile. */
  function Step(b: Board, c: Click): (r: Board)
    requires Wf(b) && InGrid(b.dim, c.pos)
    ensures Wf(r) && r.dim == b.dim && r.mineCount == b.mineCount && r.mines == b.mines && r.nearby == b.nearby
    ensures b.revealed <= r.revealed
    ensures b.clickCount <= r.clickCount
    ensures b.gameOver ==> r == b
  {
    match c
    case Left(p) => LeftClick(b, p)
    case Right(p) => RightClick(b, p)
  }

  /** Each handler keeps the invariant. */
  lemma StepInv(b: Board, c: Click)
    requires Inv(b) && InGrid(b.dim, c.pos)
    ensures Inv(Step(b, c))
  {
    match c
    case Left(p) => LeftClickInv(b, p);
    case Right(p) => RightClickInv(b, p);
  }

  /** The board after the handlers bound in create_board have run on clicks, in order. */
  function Play(b: Board, clicks: seq<Click>): (r: Board)
    requires Wf(b) && OnBoard(b.dim, clicks)
    ensures Wf(r) && r.dim == b.dim && r.mineCount == b.mineCount && r.mines == b.mines && r.nearby == b.nearby
    ensures b.revealed <= r.revealed
    ensures b.clickCount <= r.clickCount
    ensures b.gameOver ==> r == b
    decreases |clicks|
  {
    if |clicks| == 0 then b
    else Play(Step(b, clicks[0]), clicks[1..])
  }

  /** Every board reached by play from a board that satisfies the invariant
      satisfies it too: in particular the counter is always the number of
      revealed safe tiles. */
  lemma {:induction false} PlayInv(b: Board, clicks: seq<Click>)
    requires Inv(b) && OnBoard(b.dim, clicks)
    ensures Inv(Play(b, clicks))
    decreases |clicks|
  {
    if |clicks| > 0 {
      StepInv(b, clicks[0]);
      PlayInv(Step(b, clicks[0]), clicks[1..]);
    }
  }
}
