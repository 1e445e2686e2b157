/**
 * Which tiles one run of Board.reveal_tiles reveals: exactly the tiles that
 * can be reached from the start through unrevealed safe tiles, moving on
 * only from tiles with no nearby mines.
 */
module FloodRegion {
  import opened Coords
  import opened Engine

  /** A tile the flood may enter: on the board, not revealed, not a mine. */
  predicate Open(b: Board, q: Pos) {
    InGrid(b.dim, q) && q !in b.revealed && q !in b.mines
  }

  /** A walk the flood can take in b: every tile open, each step to an
      adjacent tile, and every tile it leaves has no nearby mines. */
  ghost predicate IsFloodPath(b: Board, path: seq<Pos>) {
    && |path| > 0
    && (forall k :: 0 <= k < |path| ==> Open(b, path[k]))
    && (forall k :: 0 <= k < |path| - 1 ==>
          path[k] in b.nearby && b.nearby[path[k]] == 0 && Adjacent(path[k], path[k + 1]))
  }

  /** The flood started at p in b can get to s. */
  ghost predicate Reachable(b: Board, p: Pos, s: Pos) {
    exists path :: IsFloodPath(b, path) && path[0] == p && path[|path| - 1] == s
  }

  /** An open tile reaches itself. */
  lemma ReachSelf(b: Board, p: Pos)
    requires Open(b, p)
    ensures Reachable(b, p, p)
  {
    assert IsFloodPath(b, [p]);
  }

  /** A walk can start one step earlier, from an open tile with no nearby mines. */
  lemma ReachPrepend(b: Board, p: Pos, q: Pos, s: Pos)
    requires Open(b, p) && p in b.nearby && b.nearby[p] == 0 && Adjacent(p, q)
    requires Reachable(b, q, s)
    ensures Reachable(b, p, s)
  {
    var path :| IsFloodPath(b, path) && path[0] == q && path[|path| - 1] == s;
    var longer := [p] + path;
    assert forall k :: 1 <= k < |longer| ==> longer[k] == path[k - 1];
    assert IsFloodPath(b, longer);
  }

  /** A walk open in a board with more tiles revealed is open in b too. */
  lemma ReachShrink(b: Board, b': Board, q: Pos, s: Pos)
    requires b'.dim == b.dim && b'.mines == b.mines && b'.nearby == b.nearby
    requires b.revealed <= b'.revealed
    requires Reachable(b', q, s)
    ensures Reachable(b, q, s)
  {
    var path :| IsFloodPath(b', path) && path[0] == q && path[|path| - 1] == s;
    assert IsFloodPath(b, path);
  }

  /** Every tile the flood from p reveals is reachable from p. */
  lemma {:induction false} FloodSound(b: Board, p: Pos)
    requires Wf(b) && InGrid(b.dim, p)
    ensures forall s :: s in Flood(b, p).revealed - b.revealed ==> Reachable(b, p, s)
    decreases |Grid(b.dim) - b.revealed|, 0
  {
    if p !in b.revealed && p !in b.mines {
      var b1 := RevealOne(b, p);
      ReachSelf(b, p);
      if b.nearby[p] == 0 {
        FloodNeighboursSound(b, b1, p, Neighbours);
        var r := FloodNeighbours(b1, p, Neighbours);
        assert r.revealed - b.revealed == (r.revealed - b1.revealed) + {p};
      }
    }
  }

  /** Every tile revealed by the loop over offs around p is reachable from p
      in the board b0 where p was still open. */
  lemma {:induction false} FloodNeighboursSound(b0: Board, b: Board, p: Pos, offs: seq<(int, int)>)
    requires Wf(b) && Open(b0, p) && p in b0.nearby && b0.nearby[p] == 0
    requires b.dim == b0.dim && b.mines == b0.mines && b.nearby == b0.nearby && b0.revealed <= b.revealed
    requires forall o :: o in offs ==> o in Neighbours
    ensures forall s :: s in FloodNeighbours(b, p, offs).revealed - b.revealed ==> Reachable(b0, p, s)
    decreases |Grid(b.dim) - b.revealed|, 1, |offs| + 1
  {
    if |offs| > 0 {
      var q := Shift(p, offs[0]);
      NeighbourOffsets(p, q);
      assert Offset(p, q) == offs[0];
      var b1 := FloodInBounds(b, q);
      FloodInBoundsSound(b0, b, p, q);
      FloodNeighboursSound(b0, b1, p, offs[1..]);
      var r := FloodNeighbours(b1, p, offs[1..]);
      assert r.revealed - b.revealed == (r.revealed - b1.revealed) + (b1.revealed - b.revealed);
    }
  }

  /** The reveal from the neighbour q of p only reaches tiles reachable from p. */
  lemma {:induction false} FloodInBoundsSound(b0: Board, b: Board, p: Pos, q: Pos)
    requires Wf(b) && Open(b0, p) && p in b0.nearby && b0.nearby[p] == 0 && Adjacent(p, q)
    requires b.dim == b0.dim && b.mines == b0.mines && b.nearby == b0.nearby && b0.revealed <= b.revealed
    ensures forall s :: s in FloodInBounds(b, q).revealed - b.revealed ==> Reachable(b0, p, s)
    decreases |Grid(b.dim) - b.revealed|, 1, 0
  {
    if InGrid(b.dim, q) {
      FloodSound(b, q);
      forall s | s in Flood(b, q).revealed - b.revealed
        ensures Reachable(b0, p, s)
      {
        ReachShrink(b0, b, q, s);
        ReachPrepend(b0, p, q, s);
      }
    }
  }

  /** One step of a flood path stays inside what the flood revealed: the
      reveal spreads from every newly revealed tile with no nearby mines. */
  lemma ClosureStep(b: Board, r: Board, z: Pos, n: Pos)
    requires Extends(b, r) && ClosedOver(r, r.revealed - b.revealed)
    requires z in r.revealed - b.revealed && z in b.nearby && b.nearby[z] == 0
    requires Adjacent(z, n) && Open(b, n)
    ensures n in r.revealed - b.revealed
  {
    assert Settled(r, z);
  }

  /** Every tile reachable from p is revealed by the flood from p. */
  lemma FloodComplete(b: Board, p: Pos, s: Pos)
    requires Wf(b) && InGrid(b.dim, p) && Reachable(b, p, s)
    ensures s in Flood(b, p).revealed
  {
    ClosedRegionComplete(b, Flood(b, p), p, s);
  }

  /** Any extension of b that reveals p and spreads from every newly revealed
      tile with no nearby mines contains everything reachable from p. */
  lemma ClosedRegionComplete(b: Board, r: Board, p: Pos, s: Pos)
    requires Extends(b, r) && ClosedOver(r, r.revealed - b.revealed)
    requires p in r.revealed || p in b.mines
    requires Reachable(b, p, s)
    ensures s in r.revealed
  {
    var path :| IsFloodPath(b, path) && path[0] == p && path[|path| - 1] == s;
    var k := 0;
    while k < |path| - 1
      invariant 0 <= k < |path|
      invariant path[k] in r.revealed - b.revealed
    {
      ClosureStep(b, r, path[k], path[k + 1]);
      k := k + 1;
    }
  }

  /** The flood from p reveals exactly the tiles reachable from p. */
  lemma FloodExact(b: Board, p: Pos)
    requires Wf(b) && InGrid(b.dim, p)
    ensures forall s :: s in Flood(b, p).revealed - b.revealed <==> Reachable(b, p, s)
  {
    FloodSound(b, p);
    forall s | Reachable(b, p, s)
      ensures s in Flood(b, p).revealed - b.revealed
    {
      FloodComplete(b, p, s);
      var path :| IsFloodPath(b, path) && path[0] == p && path[|path| - 1] == s;
      assert Open(b, path[|path| - 1]);
    }
  }

  /** Reachability does not look at flags. */
  lemma ReachIgnoresFlags(b: Board, p: Pos, s: Pos, f: set<Pos>)
    ensures Reachable(b, p, s) <==> Reachable(b.(flagged := f), p, s)
  {
    var b' := b.(flagged := f);
    if Reachable(b, p, s) {
      var path :| IsFloodPath(b, path) && path[0] == p && path[|path| - 1] == s;
      assert IsFloodPath(b', path);
    }
    if Reachable(b', p, s) {
      var path :| IsFloodPath(b', path) && path[0] == p && path[|path| - 1] == s;
      assert IsFloodPath(b, path);
    }
  }

  /** Flags play no part in the flood: with any other flags the same tiles
      are revealed and counted. */
  lemma FloodIgnoresFlags(b: Board, p: Pos, f: set<Pos>)
    requires Wf(b) && InGrid(b.dim, p) && f <= Grid(b.dim)
    ensures Flood(b.(flagged := f), p).(flagged := {}) == Flood(b, p).(flagged := {})
  {
    var b' := b.(flagged := f);
    FloodSameRegion(b, p, f);
    SameRevealSameBoard(b, b', Flood(b, p), Flood(b', p));
  }

  /** With other flags the flood reveals the same tiles. */
  lemma FloodSameRegion(b: Board, p: Pos, f: set<Pos>)
    requires Wf(b) && InGrid(b.dim, p) && f <= Grid(b.dim)
    ensures Flood(b, p).revealed == Flood(b.(flagged := f), p).revealed
  {
    FloodExact(b, p);
    FloodExact(b.(flagged := f), p);
    ReachableRegionsAgree(b, p, f, Flood(b, p), Flood(b.(flagged := f), p));
  }

  /** Two boards that differ only in flags, each extended by exactly its
      reachable tiles, end up with the same revealed tiles. */
  lemma ReachableRegionsAgree(b: Board, p: Pos, f: set<Pos>, r: Board, r': Board)
    requires b.revealed <= r.revealed && b.revealed <= r'.revealed
    requires forall s :: s in r.revealed - b.revealed <==> Reachable(b, p, s)
    requires forall s :: s in r'.revealed - b.revealed <==> Reachable(b.(flagged := f), p, s)
    ensures r.revealed == r'.revealed
  {
    forall s | s in r.revealed - b.revealed
      ensures s in r'.revealed - b.revealed
    {
      ReachIgnoresFlags(b, p, s, f);
    }
    forall s | s in r'.revealed - b.revealed
      ensures s in r.revealed - b.revealed
    {
      ReachIgnoresFlags(b, p, s, f);
    }
    assert r.revealed - b.revealed == r'.revealed - b.revealed;
    assert r.revealed == b.revealed + (r.revealed - b.revealed);
    assert r'.revealed == b.revealed + (r'.revealed - b.revealed);
  }

  /** Two extensions of boards that differ only in flags, revealing the same
      tiles, differ only in flags. */
  lemma SameRevealSameBoard(b: Board, b': Board, r: Board, r': Board)
    requires b' == b.(flagged := b'.flagged)
    requires Extends(b, r) && Extends(b', r')
    requires r.revealed == r'.revealed
    ensures r.(flagged := {}) == r'.(flagged := {})
  {
  }
}
