/**
 * The game engine of minesweeper.py's Board, apart from its widgets: the
 * board state as an immutable record, and the click handlers as pure steps.
 */
module Engine {
  import opened SeqSets
  import opened Coords
  import opened Placement

  /** The state of a Board: the mine keys (`mine_tiles`), each tile's
      `nearby_mines`, the keys whose tile `is_revealed`, the keys whose
      button shows the flag 'F', `current_click_count` and `is_gameover`. */
  datatype Board = Board(
    dim: nat,
    mineCount: nat,
    mines: set<Pos>,
    nearby: map<Pos, nat>,
    revealed: set<Pos>,
    flagged: set<Pos>,
    clickCount: nat,
    gameOver: bool)

  /** Every recorded key belongs to the board and every tile has a count. */
  predicate Wf(b: Board) {
    && b.nearby.Keys == Grid(b.dim)
    && b.mines <= Grid(b.dim)
    && b.revealed <= Grid(b.dim)
    && b.flagged <= Grid(b.dim)
  }

  /** Every in-bounds neighbour of z is revealed or is a mine. */
  ghost predicate Settled(b: Board, z: Pos) {
    forall n :: InGrid(b.dim, n) && Adjacent(z, n) ==> n in b.revealed || n in b.mines
  }

  /** Every tile of s with no nearby mines is settled. */
  ghost predicate ClosedOver(b: Board, s: set<Pos>) {
    forall z :: z in s && z in b.nearby && b.nearby[z] == 0 ==> Settled(b, z)
  }

  /** The invariant of every board a game goes through: counts agree with the
      mines, the click counter counts the revealed safe tiles, a revealed tile
      shows no flag, no mine is revealed while the game runs, and every
      revealed safe tile with no nearby mines has its neighbours revealed. */
  ghost predicate Inv(b: Board) {
    && Wf(b)
    && |b.mines| == b.mineCount
    && (forall q :: q in b.nearby ==> b.nearby[q] == MinesAround(b.mines, q))
    && b.clickCount == |b.revealed - b.mines|
    && b.flagged !! b.revealed
    && (!b.gameOver ==> b.revealed !! b.mines)
    && ClosedOver(b, b.revealed - b.mines)
  }

  /** Board.__init__: tiles created unrevealed and unflagged, mines placed from
      the sample, counter 0, game not over. */
  function NewBoard(dim: nat, mineCount: nat, mines: set<Pos>): (b: Board)
    requires ValidSample(dim, mineCount, mines)
    ensures Inv(b)
    ensures b.dim == dim && b.mineCount == mineCount && b.mines == mines
    ensures forall p :: InGrid(dim, p) ==> p in b.nearby && b.nearby[p] == MinesAround(mines, p)
    ensures b.revealed == {} && b.flagged == {} && b.clickCount == 0 && !b.gameOver
  {
    Board(dim, mineCount, mines, Setup(dim, mineCount, mines).nearby, {}, {}, 0, false)
  }

  /** Board.restart when the player agrees to replay: a fresh board with the
      same dimension and mine count on a new sample, whatever state b was in. */
  function Restart(b: Board, mines: set<Pos>): (r: Board)
    requires ValidSample(b.dim, b.mineCount, mines)
    ensures Inv(r)
    ensures r.dim == b.dim && r.mineCount == b.mineCount && r.mines == mines
    ensures r.revealed == {} && r.flagged == {} && r.clickCount == 0 && !r.gameOver
  {
    NewBoard(b.dim, b.mineCount, mines)
  }

  /** Tile.reveal on every key of s: the tile is revealed, and its button text
      is replaced, which removes a flag. */
  function Uncover(b: Board, s: set<Pos>): (r: Board)
    ensures b.revealed <= r.revealed && s <= r.revealed
    ensures r.revealed - b.revealed <= s
    ensures r.flagged == b.flagged - s
    ensures r == b.(revealed := r.revealed, flagged := r.flagged)
  {
    b.(revealed := b.revealed + s, flagged := b.flagged - s)
  }

  /** r is b with more tiles revealed, none of them a mine, one click counted
      per newly revealed tile, their flags gone and nothing else changed. */
  predicate Extends(b: Board, r: Board) {
    && r == b.(revealed := r.revealed, flagged := r.flagged, clickCount := r.clickCount)
    && b.revealed <= r.revealed
    && (r.revealed - b.revealed) !! b.mines
    && r.clickCount == b.clickCount + |r.revealed - b.revealed|
    && r.flagged == b.flagged - (r.revealed - b.revealed)
  }

  /** Two reveal phases in a row are one reveal phase. */
  lemma ExtendsTrans(a: Board, b: Board, c: Board)
    requires Extends(a, b) && Extends(b, c)
    ensures Extends(a, c)
  {
    DiffCard(a.revealed, b.revealed, c.revealed);
    assert c.revealed - a.revealed == (c.revealed - b.revealed) + (b.revealed - a.revealed);
  }

  /** A tile settled in b stays settled when more tiles are revealed. */
  lemma ClosedOverMono(b: Board, r: Board, s: set<Pos>)
    requires ClosedOver(b, s)
    requires r.dim == b.dim && r.mines == b.mines && r.nearby == b.nearby
    requires b.revealed <= r.revealed
    ensures ClosedOver(r, s)
  {
    forall z | z in s && z in r.nearby && r.nearby[z] == 0
      ensures Settled(r, z)
    {
      assert Settled(b, z);
    }
  }

  /** Tiles closed over in b and tiles closed over in b together are closed over. */
  lemma ClosedOverUnion(b: Board, s: set<Pos>, t: set<Pos>)
    requires ClosedOver(b, s) && ClosedOver(b, t)
    ensures ClosedOver(b, s + t)
  {
  }

  /** Board.reveal_tiles: a tile that is unrevealed and not a mine is revealed
      and counted; from a tile with no nearby mines the reveal spreads to
      every in-bounds neighbour, in the order of Board.NEIGHBOURS. */
  function Flood(b: Board, p: Pos): (r: Board)
    requires Wf(b) && InGrid(b.dim, p)
    ensures Wf(r)
    ensures Extends(b, r)
    ensures p in r.revealed || p in b.mines
    ensures p in b.revealed || p in b.mines ==> r == b
    ensures p !in b.revealed && p !in b.mines && b.nearby[p] != 0 ==> r.revealed == b.revealed + {p}
    ensures ClosedOver(r, r.revealed - b.revealed)
    decreases |Grid(b.dim) - b.revealed|, 0
  {
    if p in b.revealed || p in b.mines then
      assert b.revealed - b.revealed == {};
      b
    else
      var b1 := RevealOne(b, p);
      if b.nearby[p] == 0 then
        var r := FloodNeighbours(b1, p, Neighbours);
        FloodSeedStep(b, p, b1, r);
        r
      else
        b1
  }

  /** The first step of Board.reveal_tiles on an unrevealed safe tile:
      `current_click_count` goes up by one and the tile is revealed. */
  function RevealOne(b: Board, p: Pos): (r: Board)
    requires Wf(b) && InGrid(b.dim, p) && p !in b.revealed && p !in b.mines
    ensures Wf(r) && Extends(b, r)
    ensures r.revealed == b.revealed + {p}
    ensures |Grid(r.dim) - r.revealed| < |Grid(b.dim) - b.revealed|
    ensures b.nearby[p] != 0 ==> ClosedOver(r, r.revealed - b.revealed)
  {
    var r := Uncover(b, {p}).(clickCount := b.clickCount + 1);
    assert Grid(b.dim) - r.revealed == (Grid(b.dim) - b.revealed) - {p};
    assert r.revealed - b.revealed == {p};
    r
  }

  /** The spreading step of Board.reveal_tiles from a tile p with no nearby mines. */
  lemma FloodSeedStep(b: Board, p: Pos, b1: Board, r: Board)
    requires Wf(b) && p !in b.revealed && Extends(b, b1) && b1.revealed == b.revealed + {p}
    requires Extends(b1, r) && ClosedOver(r, r.revealed - b1.revealed)
    requires forall o :: o in Neighbours && InGrid(b1.dim, Shift(p, o)) ==>
               Shift(p, o) in r.revealed || Shift(p, o) in b1.mines
    ensures Extends(b, r)
    ensures p in r.revealed
    ensures ClosedOver(r, r.revealed - b.revealed)
  {
    ExtendsTrans(b, b1, r);
    SettledByShifts(r, p);
    assert r.revealed - b.revealed == (r.revealed - b1.revealed) + {p};
  }

  /** The loop of Board.reveal_tiles over the offsets offs around p. */
  function FloodNeighbours(b: Board, p: Pos, offs: seq<(int, int)>): (r: Board)
    requires Wf(b)
    ensures Wf(r)
    ensures Extends(b, r)
    ensures forall o :: o in offs && InGrid(b.dim, Shift(p, o)) ==>
              Shift(p, o) in r.revealed || Shift(p, o) in b.mines
    ensures ClosedOver(r, r.revealed - b.revealed)
    decreases |Grid(b.dim) - b.revealed|, 1, |offs| + 1
  {
    if |offs| == 0 then
      assert b.revealed - b.revealed == {};
      b
    else
      var b1 := FloodInBounds(b, Shift(p, offs[0]));
      var r := FloodNeighbours(b1, p, offs[1..]);
      FloodNeighboursStep(b, b1, r, p, offs);
      r
  }

  /** The bounds test of the loop of Board.reveal_tiles: the reveal goes on
      from q only when q is a key of the board. */
  function FloodInBounds(b: Board, q: Pos): (r: Board)
    requires Wf(b)
    ensures Wf(r)
    ensures Extends(b, r)
    ensures InGrid(b.dim, q) ==> q in r.revealed || q in b.mines
    ensures ClosedOver(r, r.revealed - b.revealed)
    ensures |Grid(r.dim) - r.revealed| <= |Grid(b.dim) - b.revealed|
    decreases |Grid(b.dim) - b.revealed|, 1, 0
  {
    if InGrid(b.dim, q) then
      var r := Flood(b, q);
      SubsetCard(Grid(b.dim) - r.revealed, Grid(b.dim) - b.revealed);
      r
    else
      assert b.revealed - b.revealed == {};
      b
  }

  /** Joining the reveal of the first offset with the reveal of the rest. */
  lemma FloodNeighboursStep(b: Board, b1: Board, r: Board, p: Pos, offs: seq<(int, int)>)
    requires |offs| > 0
    requires Extends(b, b1) && ClosedOver(b1, b1.revealed - b.revealed)
    requires InGrid(b.dim, Shift(p, offs[0])) ==> Shift(p, offs[0]) in b1.revealed || Shift(p, offs[0]) in b.mines
    requires Extends(b1, r) && ClosedOver(r, r.revealed - b1.revealed)
    requires forall o :: o in offs[1..] && InGrid(b1.dim, Shift(p, o)) ==>
               Shift(p, o) in r.revealed || Shift(p, o) in b1.mines
    ensures Extends(b, r)
    ensures forall o :: o in offs && InGrid(b.dim, Shift(p, o)) ==>
              Shift(p, o) in r.revealed || Shift(p, o) in b.mines
    ensures ClosedOver(r, r.revealed - b.revealed)
  {
    ExtendsTrans(b, b1, r);
    ClosedOverMono(b1, r, b1.revealed - b.revealed);
    assert r.revealed - b.revealed == (r.revealed - b1.revealed) + (b1.revealed - b.revealed);
  }

  /** A tile whose every in-bounds Board.NEIGHBOURS offset leads to a revealed
      tile or a mine is settled. */
  lemma SettledByShifts(b: Board, p: Pos)
    requires forall o :: o in Neighbours && InGrid(b.dim, Shift(p, o)) ==>
               Shift(p, o) in b.revealed || Shift(p, o) in b.mines
    ensures Settled(b, p)
  {
    forall n | InGrid(b.dim, n) && Adjacent(p, n)
      ensures n in b.revealed || n in b.mines
    {
      NeighbourOffsets(p, n);
    }
  }

  /** Board.reveal_mines: every mine of the sample is revealed, and tiles
      already revealed stay revealed. */
  function RevealMines(b: Board): (r: Board)
    ensures b.revealed <= r.revealed
    ensures b.mines <= r.revealed
    ensures r.revealed - b.revealed <= b.mines
    ensures r.flagged == b.flagged - b.mines
    ensures r == b.(revealed := r.revealed, flagged := r.flagged)
  {
    Uncover(b, b.mines)
  }

  /** Board.on_left_click(x, y) on the tile p. */
  function LeftClick(b: Board, p: Pos): (r: Board)
    requires Wf(b)
    requires b.gameOver || InGrid(b.dim, p)
    ensures Wf(r)
    ensures b.gameOver || p in b.revealed ==> r == b
    ensures !b.gameOver && p !in b.revealed && p in b.mines ==>
              && r.gameOver
              && r.revealed == b.revealed + b.mines
              && r.flagged == b.flagged - b.mines
              && r == b.(revealed := r.revealed, flagged := r.flagged, gameOver := true)
    ensures !b.gameOver && p !in b.revealed && p !in b.mines ==>
              && p in r.revealed
              && Extends(b, r.(gameOver := false))
              && ClosedOver(r, r.revealed - b.revealed)
              && (b.nearby[p] != 0 ==> r.revealed == b.revealed + {p})
              && (r.gameOver <==> r.clickCount == b.dim * b.dim - b.mineCount)
  {
    if b.gameOver || p in b.revealed then b
    else if p in b.mines then
      RevealMines(Uncover(b, {p})).(gameOver := true)
    else
      var b1 := if b.nearby[p] == 0 then Flood(b, p) else RevealOne(b, p);
      if b1.clickCount == b.dim * b.dim - b.mineCount then b1.(gameOver := true) else b1
  }

  /** Board.on_right_click(x, y) with Tile.change_to_flag on the tile p. */
  function RightClick(b: Board, p: Pos): (r: Board)
    requires b.gameOver || InGrid(b.dim, p)
    ensures b.gameOver || p in b.revealed ==> r == b
    ensures !b.gameOver && p !in b.revealed ==>
              && r == b.(flagged := r.flagged)
              && (p in r.flagged <==> p !in b.flagged)
              && r.flagged - {p} == b.flagged - {p}
  {
    if b.gameOver || p in b.revealed then b
    else b.(flagged := if p in b.flagged then b.flagged - {p} else b.flagged + {p})
  }
}
