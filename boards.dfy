/** The board object: its cases, stored row after row, and the running
    `totalEntropy`. Each method changes the board the way the original
    `Board` and `Case` methods change it, and is proved against the value-level
    definitions of the Grid module. */
module Boards {
  import opened Wrappers
  import opened Tiles
  import opened Grid
  import opened Ranking

  /** The entropy per case the board starts its total with, whatever the size
      of the catalog. */
  const InitialEntropyPerCase: nat := 16

  class Board {
    const width: nat
    const height: nat
    /** The tile catalog every case chooses from. */
    const catalog: seq<Tile>
    var grid: seq<seq<Case>>
    var totalEntropy: int

    ghost predicate Valid()
      reads this
    {
      WellFormed(grid, width, height, catalog)
    }

    /** A `w` by `h` board of fresh cases; the total starts at 16 per case. */
    constructor (w: nat, h: nat, catalog: seq<Tile>)
      requires CatalogOk(catalog)
      ensures Valid()
      ensures width == w && height == h && this.catalog == catalog
      ensures grid == InitialGrid(w, h, catalog)
      ensures totalEntropy == w * h * InitialEntropyPerCase
    {
      width := w;
      height := h;
      this.catalog := catalog;
      grid := InitialGrid(w, h, catalog);
      totalEntropy := w * h * InitialEntropyPerCase;
    }

    /** `board[x, y] = value`: store a case at its own position. */
    method SetItem(x: int, y: int, value: Case)
      requires Valid() && InBounds(width, height, x, y) && CellOk(value, x, y, catalog)
      modifies this
      ensures Valid()
      ensures grid == old(grid)[y := old(grid)[y][x := value]]
      ensures totalEntropy == old(totalEntropy)
    {
      grid := grid[y := grid[y][x := value]];
    }

    /** `getPossibleTile` of the case at `(x, y)`: the catalog tiles that fit
        every resolved neighbour, in catalog order; the case's entropy becomes
        their number and nothing else changes. */
    method PossibleTiles(x: int, y: int) returns (out: seq<Tile>)
      requires Valid() && InBounds(width, height, x, y)
      modifies this
      ensures Valid()
      ensures out == CandidatesAt(old(grid), width, height, catalog, x, y)
      ensures grid == old(grid)[y := old(grid)[y][x := old(grid)[y][x].(entropy := |out|)]]
      ensures totalEntropy == old(totalEntropy)
    {
      var c := grid[y][x];
      if c.defined {
        out := [];
      } else {
        out := Filter(NeighbourTiles(grid, width, height, catalog, x, y));
      }
      StoreKeepsWellFormed(grid, width, height, catalog, x, y, c.(entropy := |out|));
      grid := grid[y := grid[y][x := c.(entropy := |out|)]];
    }

    /** The loop of `getPossibleTile` over the catalog: keep each tile that
        fits every neighbour holding a tile. */
    method Filter(neighbours: seq<Option<Tile>>) returns (out: seq<Tile>)
      requires CatalogOk(catalog) && NeighboursOk(neighbours)
      ensures out == Candidates(catalog, neighbours)
    {
      out := [];
      for t := 0 to |catalog|
        invariant out == Candidates(catalog[..t], neighbours)
      {
        var tile := catalog[t];
        assert tile in catalog;
        var valid := true;
        for i := 0 to 4
          invariant valid <==> forall j :: 0 <= j < i && neighbours[j].Some? ==> Fits(tile, j, neighbours[j].value)
        {
          if neighbours[i].Some? {
            valid := valid && neighbours[i].value.codeSides[(i + 2) % 4] == Reverse(tile.codeSides[i]);
          }
        }
        assert catalog[..t + 1][..t] == catalog[..t];
        if valid {
          out := out + [tile];
        }
      }
      assert catalog[..|catalog|] == catalog;
    }

    /** `define`: resolve the case at `(x, y)` to one of its candidates, chosen
        freely. With no candidate the original program fails (`None` here) and
        the case is left unresolved with entropy 0. */
    method Define(x: int, y: int) returns (r: Option<Tile>)
      requires Valid() && InBounds(width, height, x, y)
      modifies this
      ensures Valid()
      ensures var cands := CandidatesAt(old(grid), width, height, catalog, x, y);
              && (r.Some? <==> cands != [])
              && (r.Some? ==> && r.value in cands
                              && grid == old(grid)[y := old(grid)[y][x := Case(x, y, true, r, |cands|)]])
              && (r.None? ==> grid == old(grid)[y := old(grid)[y][x := old(grid)[y][x].(entropy := 0)]])
      ensures totalEntropy == old(totalEntropy)
      ensures Consistent(old(grid), width, height, catalog) ==> Consistent(grid, width, height, catalog)
    {
      ghost var g0: seq<seq<Case>> := grid;
      var tiles := PossibleTiles(x, y);
      if tiles == [] {
        if Consistent(g0, width, height, catalog) {
          SameResolutionConsistent(g0, grid, width, height, catalog);
        }
        return None;
      }
      var i :| 0 <= i < |tiles|;
      r := Some(tiles[i]);
      var c := Case(x, y, true, r, |tiles|);
      assert c == grid[y][x].(defined := true, tile := r);
      StoreKeepsWellFormed(grid, width, height, catalog, x, y, c);
      assert grid[y][x := c] == g0[y][x := c];
      grid := grid[y := grid[y][x := c]];
      if Consistent(g0, width, height, catalog) {
        PlaceKeepsConsistent(g0, width, height, catalog, x, y, c);
      }
    }

    /** `update`: recompute every entropy, row after row, and store their sum. */
    method Update()
      requires Valid()
      modifies this
      ensures Valid()
      ensures Refreshed(old(grid), grid, width, height, catalog)
      ensures totalEntropy == GridSum(grid)
      ensures Consistent(old(grid), width, height, catalog) ==> Consistent(grid, width, height, catalog)
    {
      ghost var g0: seq<seq<Case>> := grid;
      var total := 0;
      for y := 0 to height
        invariant RefreshedBefore(g0, grid, width, height, catalog, 0, y)
        invariant total == GridSum(grid[..y])
      {
        for x := 0 to width
          invariant RefreshedBefore(g0, grid, width, height, catalog, x, y)
          invariant total == GridSum(grid[..y]) + RowSum(grid[y][..x])
        {
          RefreshedBeforeOk(g0, grid, width, height, catalog, x, y);
          RefreshedBeforeStep(g0, grid, width, height, catalog, x, y);
          ghost var before: seq<seq<Case>> := grid;
          var _ := PossibleTiles(x, y);
          PartialSumStep(before, grid, x, y);
          total := total + grid[y][x].entropy;
        }
        PartialSumRowEnd(grid, y);
        RefreshedBeforeNextRow(g0, grid, width, height, catalog, y);
      }
      assert grid[..height] == grid;
      RefreshedBeforeOk(g0, grid, width, height, catalog, 0, height);
      RefreshedBeforeEnd(g0, grid, width, height, catalog);
      if Consistent(g0, width, height, catalog) {
        RefreshedIsFresh(g0, grid, width, height, catalog);
        SameResolutionConsistent(g0, grid, width, height, catalog);
      }
      totalEntropy := total;
    }

    /** The unresolved cases, collected row after row. */
    method CollectUnresolved() returns (out: seq<Case>)
      requires Valid()
      ensures out == Unresolved(grid)
      ensures InRowMajorOrder(out)
    {
      out := [];
      for y := 0 to height
        invariant out == Unresolved(grid[..y])
        invariant InRowMajorOrder(out) && ListedBefore(out, 0, y)
      {
        for x := 0 to width
          invariant out == Unresolved(grid[..y]) + UnresolvedRow(grid[y][..x])
          invariant InRowMajorOrder(out) && ListedBefore(out, x, y)
        {
          PartialUnresolvedStep(grid, x, y);
          var c := grid[y][x];
          assert InBounds(width, height, x, y);
          if !c.defined {
            AppendInOrder(out, c);
            out := out + [c];
          }
        }
        PartialUnresolvedRowEnd(grid, y);
      }
      assert grid[..height] == grid;
    }

    /** `getCaseByEntropy`: refresh the board, then rank the unresolved cases by
        entropy, ties in reading order. */
    method GetCaseByEntropy() returns (cases: seq<Case>)
      requires Valid()
      modifies this
      ensures Valid()
      ensures Refreshed(old(grid), grid, width, height, catalog)
      ensures totalEntropy == GridSum(grid)
      ensures multiset(cases) == multiset(Unresolved(grid))
      ensures RankedBy(EntropyKey, cases)
    {
      Update();
      var out := CollectUnresolved();
      cases := SortByKey(out, EntropyKey);
    }

    /** `getCaseByCenterDist`: refresh the board, then rank the unresolved cases
        by their distance from position (0, 0), ties in reading order. */
    method GetCaseByCenterDist() returns (cases: seq<Case>)
      requires Valid()
      modifies this
      ensures Valid()
      ensures Refreshed(old(grid), grid, width, height, catalog)
      ensures totalEntropy == GridSum(grid)
      ensures multiset(cases) == multiset(Unresolved(grid))
      ensures RankedBy(CenterKey, cases)
    {
      Update();
      var out := CollectUnresolved();
      cases := SortByKey(out, CenterKey);
    }
  }
}
