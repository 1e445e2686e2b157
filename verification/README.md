# Minesweeper board engine in Dafny

This project models the game engine of `minesweeper.py`: the `Board` class and
the `Tile` fields it works on, taken apart from their tkinter widgets. A board of
`dimension x dimension` tiles receives `mine_count` mines. Each tile counts its
neighbouring mines in `nearby_mines`. A left click reveals a tile. Clicking a
tile with no nearby mines floods outwards, and clicking a mine ends the game. A
right click toggles a flag. The game is won when `current_click_count` reaches
`dimension**2 - mine_count`.

The board is the immutable record `Engine.Board`. It has these fields:

- the dimension and the mine count;
- the mine set (`mine_tiles`);
- `nearby` (each tile's `nearby_mines`);
- the revealed tiles (`is_revealed`);
- the flagged tiles (buttons showing `F`);
- `clickCount` (`current_click_count`);
- `gameOver` (`is_gameover`).

Every handler is a pure function from board to board.

Modules follow the structure of the code:

- `SeqSets`: repetition-free sequences and set sizes.
- `Coords`: tile keys, `Board.NEIGHBOURS`, and the row-by-row order in which
  `create_board` fills the `tiles` dict.
- `Placement`: the mine sample, `place_mine_tiles`, `update_neighbours`, and a
  direct reference count `MinesAround`.
- `Engine`: the board record and `reveal_tiles`, `reveal_mines`,
  `on_left_click`, `on_right_click` and `restart`. It also holds the invariant
  `Inv` that every board in a game satisfies.
- `FloodRegion`: the exact set of tiles one flood reveals, as reachability over
  walks.
- `Game`: how clicks relate to each other. This covers the invariant, the victory
  condition, flags, repeated clicks, and sequences of clicks.

The model follows the code as written, including where it differs from what a
Minesweeper game is usually expected to do:

- Flags do not protect a tile. A flag is only button text
  (`Tile.change_to_flag`). Neither `on_left_click` nor `reveal_tiles` looks at
  it, and revealing a tile overwrites the text. So the model lets a flagged
  tile be revealed, and revealing a tile removes its flag.
- `tile_type` is only ever `0` or `-1`. A tile is a mine exactly when its key is
  in the sample, so the board keeps only the mine set. `Placement.Setup` proves
  the two views agree.
- Mines also receive `nearby_mines` increments. `nearby` covers every tile,
  mines included.
- A game has one `is_gameover` flag and no separate won or lost status.
- The upper-bound test of the custom-board dialog is strict
  (`mine_count > dimension**2`), so a board made entirely of mines passes it.
  On such a board every click loses. The dialog also rejects a missing,
  non-integer or non-positive count, but the value it asks for again is not
  re-checked. The model accepts any count from 0 to `dimension**2` and
  leaves the dialog out.
- A click outside the board raises `KeyError` in the dict lookup, but only while
  the game is not over. This becomes the precondition
  `b.gameOver || InGrid(b.dim, p)` of the click handlers. Every bound button is
  on the board.

## Model

| member | source | states |
|---|---|---|
| Coords.Grid | minesweeper.py:107-109 | the tile keys of a board are exactly the pairs (x, y) with 0 <= x, y < dimension |
| Coords.NeighbourOffsets | minesweeper.py:91-93 | the eight offsets of NEIGHBOURS lead from a tile to exactly the tiles touching it by a side or a corner |
| Coords.NeighboursDistinct | minesweeper.py:91-93 | no offset occurs twice in NEIGHBOURS, so update_neighbours bumps each neighbour once |
| Coords.RowFrom | minesweeper.py:109 | the inner loop of create_board visits row x column by column: element i is (x, y + i) |
| Coords.RowsFrom | minesweeper.py:108-109 | the nested loops visit every tile of rows x..dimension-1 exactly once, (dimension - x) * dimension tiles in all |
| Coords.TileOrder | minesweeper.py:123-124 | the keys of the tiles dict, in insertion order, are every board key once: dimension * dimension keys without repetition |
| Coords.GridSize | minesweeper.py:107-109 | a board has dimension**2 tiles |
| Placement.SampleSize | minesweeper.py:130 | a sample of distinct board keys never holds more than dimension**2 mines |
| Placement.SampleExists | minesweeper.py:130 | every mine count from 0 to dimension**2 has a sample, so a sample exists exactly when random.sample accepts the count |
| Placement.MinesAroundAdd | minesweeper.py:137-141 | one more mine raises a tile's direct count by one exactly when that mine touches the tile |
| Placement.Blank | minesweeper.py:123 | create_board makes one tile per board key, every one of type 0 and, as Tile sets it up, with no nearby mines |
| Placement.UpdateNeighbours | minesweeper.py:137-141 | every in-bounds tile reached by one of the offsets from the mine gains exactly one nearby mine; every other tile, off-board keys included, is unchanged |
| Placement.PlaceMines | minesweeper.py:128-135 | after the loop over the tiles, the visited sampled tiles have type -1 and every other tile keeps its type; each tile's count grows by the number of visited mines touching it |
| Placement.Setup | minesweeper.py:123-141 | after placement exactly the sampled keys have tile_type -1 and there are mine_count of them; all other tiles keep type 0; every tile's nearby_mines equals the direct count of mines among its in-bounds neighbours |
| Engine.NewBoard | minesweeper.py:95-105 | a new board satisfies the invariant, has the correct neighbour counts, nothing revealed or flagged, counter 0 and the game not over |
| Engine.Restart | minesweeper.py:205-215 | replaying gives a fresh board with the same dimension and mine count: counter 0, not over, nothing revealed, on the new sample |
| Engine.ExtendsTrans | minesweeper.py:180-189 | two safe reveal phases one after the other form one safe reveal phase: no mine revealed, one click per new tile, flags of the new tiles gone |
| Engine.ClosedOverMono | minesweeper.py:185-189 | a tile whose neighbours are all revealed or mines keeps that property when more tiles are revealed |
| Engine.ClosedOverUnion | minesweeper.py:185-189 | the tiles settled by two reveal phases together are settled |
| Engine.Flood | minesweeper.py:172-189 | reveal_tiles terminates (the measure is the number of unrevealed tiles), only adds revealed tiles, never reveals a mine, and counts one click per newly revealed tile. An already revealed tile or a mine leaves the board unchanged, and a numbered tile reveals only itself. Every newly revealed tile with no nearby mines has all its in-bounds neighbours revealed or mines |
| Engine.Uncover | minesweeper.py:60-73 | revealing a set of tiles keeps every tile already revealed, reveals every tile of the set and no other, clears exactly those tiles' flags, because the button text is overwritten, and changes nothing else |
| Engine.RevealOne | minesweeper.py:180-183 | revealing one unrevealed safe tile adds exactly that tile, counts one click and shrinks the number of unrevealed tiles |
| Engine.FloodSeedStep | minesweeper.py:182-189 | revealing a tile with no nearby mines and then flooding its neighbours settles that tile and keeps the flood's guarantees |
| Engine.FloodNeighbours | minesweeper.py:185-189 | after the loop over the offsets, every in-bounds neighbour reached is revealed or a mine, with the same guarantees as the flood |
| Engine.FloodInBounds | minesweeper.py:186-189 | the reveal goes on from a neighbour only when it is on the board, and then that neighbour ends revealed or is a mine |
| Engine.FloodNeighboursStep | minesweeper.py:185-189 | the reveal from the first offset joined with the reveal from the remaining offsets keeps every guarantee of the loop |
| Engine.SettledByShifts | minesweeper.py:185-189 | if every in-bounds NEIGHBOURS offset of a tile leads to a revealed tile or a mine, then all the tiles touching it are revealed or mines |
| Engine.RevealMines | minesweeper.py:191-193 | tiles already revealed stay revealed, every mine of the sample is revealed, no other tile is revealed, and nothing else changes apart from the mines' flags |
| Engine.LeftClick | minesweeper.py:143-163 | once the game is over, or on a revealed tile, nothing changes. On a mine, the tile and every mine are revealed, the game ends, and the counter does not change. On a safe tile, the tile is revealed, no mine is revealed, and the counter grows by the number of newly revealed tiles. A numbered tile reveals only itself. The game ends exactly when the counter equals dimension**2 - mine_count. The state is the one `gameover`/`victory` leave before `restart` runs |
| Engine.RightClick | minesweeper.py:166-170 | once the game is over, or on a revealed tile, nothing changes; otherwise only the flag of the clicked tile flips |
| FloodRegion.ReachSelf | minesweeper.py:180 | the flood can always reach an open tile from that same tile |
| FloodRegion.ReachPrepend | minesweeper.py:185-189 | a walk can start one step earlier, from an open tile with no nearby mines next to the walk's start |
| FloodRegion.ReachShrink | minesweeper.py:180 | a walk that is open on a board with more revealed tiles is open on the board with fewer |
| FloodRegion.FloodSound | minesweeper.py:172-189 | every tile the flood reveals is reachable from the clicked tile through unrevealed safe tiles, leaving only tiles with no nearby mines |
| FloodRegion.FloodNeighboursSound | minesweeper.py:185-189 | every tile the loop over the neighbours reveals is reachable from the tile the loop spreads from |
| FloodRegion.FloodInBoundsSound | minesweeper.py:186-189 | the reveal from a neighbour reaches only tiles that are reachable from the tile the reveal spreads from |
| FloodRegion.ClosureStep | minesweeper.py:185-189 | one step of a walk from a newly revealed tile with no nearby mines stays inside the revealed region |
| FloodRegion.FloodComplete | minesweeper.py:172-189 | every tile reachable in that way is revealed by the flood |
| FloodRegion.ClosedRegionComplete | minesweeper.py:172-189 | any safe reveal that contains the start and spreads from each of its tiles with no nearby mines contains everything reachable from the start |
| FloodRegion.FloodExact | minesweeper.py:172-189 | the flood reveals exactly the reachable tiles, both directions |
| FloodRegion.ReachIgnoresFlags | minesweeper.py:180 | whether a tile can be reached does not depend on the flags |
| FloodRegion.FloodSameRegion | minesweeper.py:172-189 | whatever the flags are, the flood reveals the same tiles |
| FloodRegion.ReachableRegionsAgree | minesweeper.py:172-189 | two boards that differ only in flags, each extended by exactly its reachable tiles, end with the same revealed tiles |
| FloodRegion.SameRevealSameBoard | minesweeper.py:172-189 | two safe reveals of boards differing only in flags that reveal the same tiles differ only in flags |
| FloodRegion.FloodIgnoresFlags | minesweeper.py:172-189 | the flood does not look at flags: the same tiles are revealed and counted whatever is flagged |
| Game.NoMineNextToZero | minesweeper.py:155-156 | a tile whose direct count is zero has no mine among its neighbours |
| Game.LeftClickInv | minesweeper.py:143-163 | every left click keeps the invariant: correct counts, counter == number of revealed safe tiles, revealed tiles unflagged, no mine revealed while the game runs, revealed zero tiles settled |
| Game.MineClickInv | minesweeper.py:149-152 | revealing every mine and ending the game keeps the invariant |
| Game.SafeClickInv | minesweeper.py:153-163 | revealing safe tiles, spreading from those with no nearby mines, keeps the invariant |
| Game.RightClickInv | minesweeper.py:166-170 | every right click keeps the invariant |
| Game.SafeTileCount | minesweeper.py:162 | a board has dimension**2 - mine_count safe tiles |
| Game.VictoryCount | minesweeper.py:162 | on boards with the invariant, the counter equals dimension**2 - mine_count exactly when every safe tile is revealed |
| Game.VictoryExact | minesweeper.py:155-163 | a click on an unrevealed safe tile ends the game exactly when every safe tile is then revealed |
| Game.GameOverMeans | minesweeper.py:149-163 | a click that ends the game is either a loss on a mine, with every mine shown and the counter unchanged, or a victory with every safe tile revealed and no mine shown |
| Game.ZeroRevealsNeighbours | minesweeper.py:155-156 | clicking a safe tile with no nearby mines reveals all of its in-bounds neighbours in the same click |
| Game.LeftClickIgnoresFlags | minesweeper.py:143-163 | flags change nothing about a left click: the same tiles are revealed, the same clicks counted, the game ends the same way |
| Game.LeftClickIdempotent | minesweeper.py:145-147 | left-clicking the same tile twice does the same as clicking it once |
| Game.RightClickTwice | minesweeper.py:54-58 | right-clicking the same tile twice restores the board |
| Game.Step | minesweeper.py:119-121 | a click on a button runs its handler; mines, counts and dimension never change, revealed tiles and the counter never decrease, and a finished game stays as it is until it is restarted |
| Game.StepInv | minesweeper.py:119-121 | each bound handler keeps the invariant |
| Game.Play | minesweeper.py:119-121 | over any sequence of clicks, revealed tiles and the counter only grow, and a finished game does not change until it is restarted |
| Game.PlayInv | minesweeper.py:119-121 | after any sequence of clicks from a board with the invariant, the invariant still holds; in particular the counter is the number of revealed safe tiles |

## Left out

- Rendering: button creation, `bind`, `grid`, and the `config` calls with their
  colours, glyphs and relief, including the `COLORS` palette. Revealing a tile is
  modelled only as setting `is_revealed` and replacing the button text.
- Dialogs and the window: `messagebox` and `simpledialog`, the replay question
  in `restart`, and widget destruction. `Engine.Restart` models the "replay"
  answer only. The "quit" answer destroys the window and ends the program.
- Randomness: `random.sample` is replaced by a mine set given as a parameter.
  The parameter satisfies `ValidSample`: it holds distinct board keys and has
  size `mine_count`. The `ValueError` that `sample` raises for a count above
  `dimension**2` falls outside that precondition. `SampleSize` and
  `SampleExists` show exactly which counts have a sample.
- `GUI`, `Minesweeper`, `InputHandler` and the Tk event loop. `Game.Play`
  stands in for the dispatch of clicks to the bound handlers.
- Out-of-board clicks: the `KeyError` of the dict lookup is excluded by
  precondition and not modelled as an error value. The handlers are only ever
  bound to buttons on the board.
- Engine.LeftClick: stops where `gameover` or `victory` sets `is_gameover`.
  In the source the same click then calls `restart`. That call either rebuilds
  the board, with the counter at 0 and `is_gameover` false, or destroys the
  window. The rebuild is `Engine.Restart`, applied as a separate step, so the
  model shows the finished board that the source holds only until `restart`
  runs.
- Game.Step and Game.Play: "a finished game stays as it is" models the
  `is_gameover` guards of `on_left_click` and `on_right_click`. In the source
  those guards matter only until `restart` rebuilds the board or destroys
  the window.
- Recursion depth: `reveal_tiles` recurses once per revealed tile. A large
  flood could exceed Python's recursion limit, and the model, being
  unbounded, does not show that.
- Identity of `mine_tiles` as a list: it is modelled as a set. `sample`
  returns distinct keys, and the only uses are membership tests and revealing
  each listed tile.
