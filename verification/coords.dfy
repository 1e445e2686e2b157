/**
 * Tile keys of the square board, the order in which Board.create_board
 * creates the tiles, and the eight-neighbour relation that Board.NEIGHBOURS
 * spells out as offsets.
 */
module Coords {
  import opened SeqSets

  /** The key (x, y) of a tile: x is its row and y its column, both counted from 0. */
  datatype Pos = Pos(x: int, y: int)

  /** True when p is the key of a tile of a dim x dim board. */
  predicate InGrid(dim: int, p: Pos) {
    0 <= p.x < dim && 0 <= p.y < dim
  }

  /** All tile keys of a dim x dim board. */
  function Grid(dim: int): (g: set<Pos>)
    ensures forall p :: p in g <==> InGrid(dim, p)
  {
    set x, y | 0 <= x < dim && 0 <= y < dim :: Pos(x, y)
  }

  /** Board.NEIGHBOURS, in the order the source lists the offsets. */
  const Neighbours: seq<(int, int)> :=
    [(-1, -1), (-1, 0), (-1, 1),
     (0, -1),           (0, 1),
     (1, -1),  (1, 0),  (1, 1)]

  /** The key reached from p by the offset o: `(tile.x + row, tile.y + col)`. */
  function Shift(p: Pos, o: (int, int)): Pos {
    Pos(p.x + o.0, p.y + o.1)
  }

  /** The offset that leads from p to q. */
  function Offset(p: Pos, q: Pos): (int, int) {
    (q.x - p.x, q.y - p.y)
  }

  /** p and q are different tiles that touch along a side or at a corner. */
  predicate Adjacent(p: Pos, q: Pos) {
    p != q && -1 <= q.x - p.x <= 1 && -1 <= q.y - p.y <= 1
  }

  /** The offsets of Board.NEIGHBOURS lead from p to exactly the tiles adjacent to p. */
  lemma NeighbourOffsets(p: Pos, q: Pos)
    ensures Offset(p, q) in Neighbours <==> Adjacent(p, q)
    ensures Shift(p, Offset(p, q)) == q
  {
  }

  /** No offset occurs twice in Board.NEIGHBOURS. */
  lemma NeighboursDistinct()
    ensures Distinct(Neighbours)
  {
  }

  /** Row x of the board from column y onwards, in the order of the inner loop of create_board. */
  function RowFrom(x: int, y: nat, dim: nat): (s: seq<Pos>)
    requires y <= dim
    ensures |s| == dim - y
    ensures forall i :: 0 <= i < |s| ==> s[i] == Pos(x, y + i)
    decreases dim - y
  {
    if y == dim then [] else [Pos(x, y)] + RowFrom(x, y + 1, dim)
  }

  /** Rows x .. dim - 1 of the board, in the order of the nested loops of create_board. */
  function RowsFrom(x: nat, dim: nat): (s: seq<Pos>)
    requires x <= dim
    ensures |s| == (dim - x) * dim
    ensures Distinct(s)
    ensures forall p :: p in s <==> x <= p.x < dim && 0 <= p.y < dim
    decreases dim - x
  {
    if x == dim then []
    else
      var row := RowFrom(x, 0, dim);
      var rest := RowsFrom(x + 1, dim);
      assert forall p: Pos :: p in row <==> p.x == x && 0 <= p.y < dim by {
        forall p: Pos | p.x == x && 0 <= p.y < dim
          ensures p in row
        {
          assert row[p.y] == p;
        }
      }
      DistinctConcat(row, rest);
      assert (dim - x) * dim == dim + (dim - (x + 1)) * dim;
      row + rest
  }

  /** The keys of the dict Board.tiles in insertion order: row by row, each row by column. */
  function TileOrder(dim: nat): (s: seq<Pos>)
    ensures |s| == dim * dim
    ensures Distinct(s)
    ensures forall p :: p in s <==> InGrid(dim, p)
  {
    RowsFrom(0, dim)
  }

  /** A dim x dim board has dim * dim tiles. */
  lemma GridSize(dim: nat)
    ensures |Grid(dim)| == dim * dim
  {
    var s := TileOrder(dim);
    assert Elems(s) == Grid(dim);
    DistinctCard(s);
  }
}
