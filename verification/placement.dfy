/**
 * Board set-up: the mine sample, Board.place_mine_tiles marking the sampled
 * tiles as mines, and Board.update_neighbours adding one to `nearby_mines`
 * of every in-bounds neighbour of each mine.
 */
module Placement {
  import opened SeqSets
  import opened Coords

  /** `tile_type` of a mine. */
  const Mine: int := -1
  /** `tile_type` every tile is created with, and keeps unless it is sampled as a mine. */
  const Safe: int := 0

  /** What `sample(list(self.tiles), mine_count)` can return, read as a set:
      mine_count distinct keys of the board. */
  predicate ValidSample(dim: int, mineCount: int, mines: set<Pos>) {
    mines <= Grid(dim) && |mines| == mineCount
  }

  /** A sample never holds more mines than the board has tiles. */
  lemma SampleSize(dim: nat, mineCount: int, mines: set<Pos>)
    requires ValidSample(dim, mineCount, mines)
    ensures 0 <= mineCount <= dim * dim
  {
    GridSize(dim);
    SubsetCard(mines, Grid(dim));
  }

  /** Every mine count from 0 to dim * dim has a sample; together with
      SampleSize, a sample exists exactly when `random.sample` does not reject the count. */
  lemma SampleExists(dim: nat, mineCount: int)
    requires 0 <= mineCount <= dim * dim
    ensures exists mines :: ValidSample(dim, mineCount, mines)
  {
    var order := TileOrder(dim);
    var first := order[..mineCount];
    DistinctPrefix(order, mineCount);
    DistinctCard(first);
    assert ValidSample(dim, mineCount, Elems(first));
  }

  /** The number of mines adjacent to p, counted directly from the mine set. */
  function MinesAround(mines: set<Pos>, p: Pos): nat {
    |set m | m in mines && Adjacent(p, m)|
  }

  /** One more mine raises the direct count of p by one exactly when it is adjacent to p. */
  lemma MinesAroundAdd(mines: set<Pos>, m: Pos, p: Pos)
    requires m !in mines
    ensures MinesAround(mines + {m}, p) == MinesAround(mines, p) + (if Adjacent(p, m) then 1 else 0)
  {
    var before := set k | k in mines && Adjacent(p, k);
    var after := set k | k in mines + {m} && Adjacent(p, k);
    if Adjacent(p, m) {
      assert after == before + {m};
    } else {
      assert after == before;
    }
  }

  /** The per-tile fields set up before play: `tile_type` and `nearby_mines`. */
  datatype Layout = Layout(tileType: map<Pos, int>, nearby: map<Pos, nat>)

  /** The tiles as create_board makes them: every one of type 0 with no nearby mines. */
  function Blank(dim: int): (l: Layout)
    ensures l.tileType.Keys == Grid(dim) && l.nearby.Keys == Grid(dim)
    ensures forall p :: p in l.tileType ==> l.tileType[p] == Safe
    ensures forall p :: p in l.nearby ==> l.nearby[p] == 0
  {
    Layout(map p | p in Grid(dim) :: Safe, map p | p in Grid(dim) :: 0)
  }

  /** Board.update_neighbours for the mine m, run over the offsets offs:
      adds one to `nearby_mines` of every in-bounds tile reached by one of them. */
  function UpdateNeighbours(nearby: map<Pos, nat>, dim: int, m: Pos, offs: seq<(int, int)>): (r: map<Pos, nat>)
    requires Grid(dim) <= nearby.Keys
    requires Distinct(offs)
    ensures r.Keys == nearby.Keys
    ensures forall p :: p in r ==>
              r[p] == nearby[p] + (if InGrid(dim, p) && Offset(m, p) in offs then 1 else 0)
    decreases |offs|
  {
    if |offs| == 0 then nearby
    else
      var q := Shift(m, offs[0]);
      var bumped := if InGrid(dim, q) then nearby[q := nearby[q] + 1] else nearby;
      DistinctTail(offs);
      UpdateNeighbours(bumped, dim, m, offs[1..])
  }

  /** The loop of Board.place_mine_tiles over the tiles in the order `tiles`:
      each tile in the sample becomes a mine and its neighbours are updated. */
  function PlaceMines(l: Layout, dim: int, mines: set<Pos>, tiles: seq<Pos>): (r: Layout)
    requires Grid(dim) <= l.nearby.Keys
    requires forall t :: t in tiles ==> t in l.tileType
    requires Distinct(tiles)
    ensures r.tileType.Keys == l.tileType.Keys && r.nearby.Keys == l.nearby.Keys
    ensures forall p :: p in r.tileType ==>
              r.tileType[p] == (if p in mines && p in tiles then Mine else l.tileType[p])
    ensures forall p :: p in r.nearby ==>
              r.nearby[p] == l.nearby[p] + (if InGrid(dim, p) then MinesAround(mines * Elems(tiles), p) else 0)
    decreases |tiles|
  {
    if |tiles| == 0 then
      assert mines * Elems(tiles) == {};
      l
    else
      var t := tiles[0];
      NeighboursDistinct();
      var l' := if t in mines then Layout(l.tileType[t := Mine], UpdateNeighbours(l.nearby, dim, t, Neighbours)) else l;
      DistinctTail(tiles);
      var r := PlaceMines(l', dim, mines, tiles[1..]);
      PlaceMinesStep(l, l', r, dim, mines, tiles);
      r
  }

  /** The bookkeeping of one step of PlaceMines: the first tile's contribution
      joins the contribution of the rest. */
  lemma PlaceMinesStep(l: Layout, l': Layout, r: Layout, dim: int, mines: set<Pos>, tiles: seq<Pos>)
    requires |tiles| > 0 && Distinct(tiles)
    requires Grid(dim) <= l.nearby.Keys
    requires tiles[0] in l.tileType
    requires l'.nearby.Keys == l.nearby.Keys
    requires forall p :: p in l'.nearby ==>
               l'.nearby[p] == l.nearby[p] + (if tiles[0] in mines && InGrid(dim, p) && Offset(tiles[0], p) in Neighbours then 1 else 0)
    requires r.nearby.Keys == l'.nearby.Keys
    requires forall p :: p in r.nearby ==>
               r.nearby[p] == l'.nearby[p] + (if InGrid(dim, p) then MinesAround(mines * Elems(tiles[1..]), p) else 0)
    ensures forall p :: p in r.nearby ==>
              r.nearby[p] == l.nearby[p] + (if InGrid(dim, p) then MinesAround(mines * Elems(tiles), p) else 0)
  {
    var t := tiles[0];
    var rest := mines * Elems(tiles[1..]);
    DistinctTail(tiles);
    assert t !in rest;
    forall p | p in r.nearby
      ensures r.nearby[p] == l.nearby[p] + (if InGrid(dim, p) then MinesAround(mines * Elems(tiles), p) else 0)
    {
      NeighbourOffsets(t, p);
      if t in mines {
        assert mines * Elems(tiles) == rest + {t};
        MinesAroundAdd(rest, t, p);
      } else {
        assert mines * Elems(tiles) == rest;
      }
    }
  }

  /** Board.create_board followed by Board.place_mine_tiles on the sample `mines`:
      exactly the sampled tiles have type -1, all others keep type 0, and every
      tile's `nearby_mines` is the number of mines adjacent to it. */
  function Setup(dim: nat, mineCount: int, mines: set<Pos>): (l: Layout)
    requires ValidSample(dim, mineCount, mines)
    ensures l.tileType.Keys == Grid(dim) && l.nearby.Keys == Grid(dim)
    ensures forall p :: p in l.tileType ==> l.tileType[p] == (if p in mines then Mine else Safe)
    ensures (set p | p in l.tileType && l.tileType[p] == Mine) == mines
    ensures |set p | p in l.tileType && l.tileType[p] == Mine| == mineCount
    ensures forall p :: p in l.nearby ==> l.nearby[p] == MinesAround(mines, p)
  {
    var order := TileOrder(dim);
    var l := PlaceMines(Blank(dim), dim, mines, order);
    assert mines * Elems(order) == mines;
    assert (set p | p in l.tileType && l.tileType[p] == Mine) == mines;
    l
  }
}
