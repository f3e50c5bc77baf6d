/** The board as a value: a `height`-long list of rows, each `width` cases long,
    row `y` holding the cases `(0, y) .. (width - 1, y)`. Everything the board
    computes from its cases is defined here: the boundary-aware lookup, the
    candidate tiles of a case, its entropy, the board total and the list of
    unresolved cases. */
module Grid {
  import opened Wrappers
  import opened Tiles

  /** One board position (a `Case`): whether it is resolved (`defined`), the
      tile it holds, and the cached count of its candidate tiles (`entropy`). */
  datatype Case = Case(x: int, y: int, defined: bool, tile: Option<Tile>, entropy: int)

  /** A fresh case: unresolved, no tile, every catalog tile counted. */
  function NewCase(x: int, y: int, catalog: seq<Tile>): Case {
    Case(x, y, false, None, |catalog|)
  }

  predicate AllFourSided(ts: seq<Tile>) {
    forall t :: t in ts ==> HasFourSides(t)
  }

  /** What the board needs of the catalog: a tile 0 to stand for everything off
      the board, and four edge codes on every tile. */
  predicate CatalogOk(catalog: seq<Tile>) {
    |catalog| > 0 && AllFourSided(catalog)
  }

  predicate InBounds(w: int, h: int, x: int, y: int) {
    0 <= x < w && 0 <= y < h
  }

  /** A case sits at its own coordinates, holds a tile exactly when it is
      resolved, and that tile comes from the catalog. */
  predicate CellOk(c: Case, x: int, y: int, catalog: seq<Tile>) {
    && c.x == x && c.y == y
    && (c.defined <==> c.tile.Some?)
    && (c.tile.Some? ==> c.tile.value in catalog)
  }

  predicate Shaped(g: seq<seq<Case>>, w: nat, h: nat) {
    |g| == h && forall y :: 0 <= y < h ==> |g[y]| == w
  }

  ghost predicate WellFormed(g: seq<seq<Case>>, w: nat, h: nat, catalog: seq<Tile>) {
    && CatalogOk(catalog)
    && Shaped(g, w, h)
    && forall y, x :: InBounds(w, h, x, y) ==> CellOk(g[y][x], x, y, catalog)
  }

  /** The board as it is built: every case fresh. */
  function InitialGrid(w: nat, h: nat, catalog: seq<Tile>): (g: seq<seq<Case>>)
    requires CatalogOk(catalog)
    ensures WellFormed(g, w, h, catalog)
    ensures forall y, x :: InBounds(w, h, x, y) ==> !g[y][x].defined
  {
    seq(h, j => seq(w, i => NewCase(i, j, catalog)))
  }

  /** The case fabricated for a position off the board: resolved, holding tile 0. */
  function Sentinel(x: int, y: int, catalog: seq<Tile>): Case
    requires |catalog| > 0
  {
    Case(x, y, true, Some(catalog[0]), |catalog|)
  }

  /** `board[x, y]`: total; the stored case on the board, and a resolved case
      holding catalog tile 0 anywhere off it. */
  function Lookup(g: seq<seq<Case>>, w: nat, h: nat, catalog: seq<Tile>, x: int, y: int): (c: Case)
    requires WellFormed(g, w, h, catalog)
    ensures CellOk(c, x, y, catalog)
    ensures InBounds(w, h, x, y) ==> c == g[y][x]
    ensures !InBounds(w, h, x, y) ==> c.defined && c.tile == Some(catalog[0])
  {
    if x < 0 || y < 0 || x >= w || y >= h then Sentinel(x, y, catalog) else g[y][x]
  }

  /** `board[x, y]` as the original program writes it: `x` is compared with the
      height and `y` with the width, and only -1 is recognised as below the
      board. `None` stands for the `IndexError` of reading past the end of a row
      or of the list of rows. */
  function LookupAsWritten(g: seq<seq<Case>>, w: nat, h: nat, catalog: seq<Tile>, x: int, y: int): Option<Case>
    requires WellFormed(g, w, h, catalog) && x >= -1 && y >= -1
  {
    if x == -1 || y == -1 || x >= h || y >= w then Some(Sentinel(x, y, catalog))
    else if y < |g| && x < |g[y]| then Some(g[y][x])
    else None
  }

  /** On a square board, as the original program builds it, the lookup as written
      agrees with the corrected one for every position a neighbour can have. */
  lemma LookupAsWrittenOnSquare(g: seq<seq<Case>>, n: nat, catalog: seq<Tile>, x: int, y: int)
    requires WellFormed(g, n, n, catalog) && x >= -1 && y >= -1
    ensures LookupAsWritten(g, n, n, catalog, x, y) == Some(Lookup(g, n, n, catalog, x, y))
  {
  }

  /** On a board 3 wide and 2 high the lookup as written treats the stored case
      (2, 0) as off the board, and on a board 2 wide and 3 high it reads past the
      end of row 0 for the off-board position (2, 0). */
  lemma SwappedBoundsMisread(catalog: seq<Tile>)
    requires CatalogOk(catalog)
    ensures var wide := InitialGrid(3, 2, catalog);
            && !Lookup(wide, 3, 2, catalog, 2, 0).defined
            && LookupAsWritten(wide, 3, 2, catalog, 2, 0) == Some(Sentinel(2, 0, catalog))
    ensures var tall := InitialGrid(2, 3, catalog);
            && Lookup(tall, 2, 3, catalog, 2, 0) == Sentinel(2, 0, catalog)
            && LookupAsWritten(tall, 2, 3, catalog, 2, 0) == None
  {
    var wide: seq<seq<Case>> := InitialGrid(3, 2, catalog);
    assert !wide[0][2].defined;
  }

  /** The tiles held by the four neighbours of `(x, y)`, north, east, south and
      west; `None` for a neighbour without a tile. */
  function NeighbourTiles(g: seq<seq<Case>>, w: nat, h: nat, catalog: seq<Tile>, x: int, y: int): (n: seq<Option<Tile>>)
    requires WellFormed(g, w, h, catalog)
    ensures NeighboursOk(n)
  {
    [ Lookup(g, w, h, catalog, x, y - 1).tile,
      Lookup(g, w, h, catalog, x + 1, y).tile,
      Lookup(g, w, h, catalog, x, y + 1).tile,
      Lookup(g, w, h, catalog, x - 1, y).tile ]
  }

  predicate NeighboursOk(n: seq<Option<Tile>>) {
    |n| == 4 && forall i :: 0 <= i < 4 && n[i].Some? ==> HasFourSides(n[i].value)
  }

  /** Tile `t` may go where the neighbours hold `n`: it fits every neighbour that
      holds a tile; a neighbour without one imposes nothing. */
  predicate Admits(t: Tile, n: seq<Option<Tile>>)
    requires HasFourSides(t) && NeighboursOk(n)
  {
    forall i :: 0 <= i < 4 && n[i].Some? ==> Fits(t, i, n[i].value)
  }

  /** The catalog tiles admitted by the neighbours, in catalog order. */
  function Candidates(catalog: seq<Tile>, n: seq<Option<Tile>>): (r: seq<Tile>)
    requires AllFourSided(catalog) && NeighboursOk(n)
    ensures |r| <= |catalog|
  {
    if catalog == [] then []
    else
      var last := catalog[|catalog| - 1];
      assert last in catalog;
      Candidates(catalog[..|catalog| - 1], n) + (if Admits(last, n) then [last] else [])
  }

  /** A tile is a candidate exactly when it is in the catalog and fits every
      neighbour that holds a tile. */
  lemma {:induction false} CandidatesMembers(catalog: seq<Tile>, n: seq<Option<Tile>>)
    requires AllFourSided(catalog) && NeighboursOk(n)
    ensures forall t :: t in Candidates(catalog, n) <==> t in catalog && Admits(t, n)
  {
    if catalog != [] {
      var init := catalog[..|catalog| - 1];
      var last := catalog[|catalog| - 1];
      assert last in catalog;
      CandidatesMembers(init, n);
      assert catalog == init + [last];
    }
  }


  /** Filtering keeps the order of the catalog: the candidates of two catalogs
      one after the other are the candidates of each, one after the other. */
  lemma {:induction false} CandidatesAppend(a: seq<Tile>, b: seq<Tile>, n: seq<Option<Tile>>)
    requires AllFourSided(a) && AllFourSided(b) && NeighboursOk(n)
    ensures AllFourSided(a + b)
    ensures Candidates(a + b, n) == Candidates(a, n) + Candidates(b, n)
  {
    if b == [] {
      assert a + b == a;
    } else {
      var b' := b[..|b| - 1];
      assert (a + b)[..|a + b| - 1] == a + b';
      CandidatesAppend(a, b', n);
    }
  }

  /** Duplicates are kept: a tile occurs among the candidates exactly as often as
      in the catalog when it is admitted, and not at all otherwise. */
  lemma {:induction false} CandidatesCount(catalog: seq<Tile>, n: seq<Option<Tile>>, t: Tile)
    requires AllFourSided(catalog) && NeighboursOk(n)
    ensures multiset(Candidates(catalog, n))[t] ==
              if HasFourSides(t) && Admits(t, n) then multiset(catalog)[t] else 0
  {
    if catalog != [] {
      var init := catalog[..|catalog| - 1];
      assert catalog == init + [catalog[|catalog| - 1]];
      CandidatesCount(init, n, t);
    }
  }

  /** Around a case with no resolved neighbour every catalog tile is a candidate. */
  lemma {:induction false} CandidatesUnconstrained(catalog: seq<Tile>, n: seq<Option<Tile>>)
    requires AllFourSided(catalog) && NeighboursOk(n)
    requires forall i :: 0 <= i < 4 ==> n[i].None?
    ensures Candidates(catalog, n) == catalog
  {
    if catalog != [] {
      var init := catalog[..|catalog| - 1];
      var last := catalog[|catalog| - 1];
      assert last in catalog;
      assert AllFourSided(init) by {
        forall t | t in init ensures HasFourSides(t) {
          assert t in catalog;
        }
      }
      assert Admits(last, n);
      CandidatesUnconstrained(init, n);
      assert catalog == init + [last];
    }
  }


  /** What `getPossibleTile` returns for the case at `(x, y)`: nothing for a
      resolved case, the admitted catalog tiles otherwise. */
  function CandidatesAt(g: seq<seq<Case>>, w: nat, h: nat, catalog: seq<Tile>, x: int, y: int): (r: seq<Tile>)
    requires WellFormed(g, w, h, catalog) && InBounds(w, h, x, y)
    ensures |r| <= |catalog|
    ensures forall t :: t in r ==> t in catalog
    ensures g[y][x].defined ==> r == []
    ensures !g[y][x].defined ==> r == Candidates(catalog, NeighbourTiles(g, w, h, catalog, x, y))
  {
    if g[y][x].defined then []
    else
      var n := NeighbourTiles(g, w, h, catalog, x, y);
      CandidatesMembers(catalog, n);
      Candidates(catalog, n)
  }

  /** The entropy a case should have: the number of its candidates. */
  function CellEntropy(g: seq<seq<Case>>, w: nat, h: nat, catalog: seq<Tile>, x: int, y: int): (e: nat)
    requires WellFormed(g, w, h, catalog) && InBounds(w, h, x, y)
    ensures e <= |catalog|
  {
    |CandidatesAt(g, w, h, catalog, x, y)|
  }

  /** Every cached entropy agrees with the current neighbourhood. */
  ghost predicate Fresh(g: seq<seq<Case>>, w: nat, h: nat, catalog: seq<Tile>) {
    && WellFormed(g, w, h, catalog)
    && forall y, x :: InBounds(w, h, x, y) ==> g[y][x].entropy == CellEntropy(g, w, h, catalog, x, y)
  }

  /** `g` is `g0` with every entropy recomputed and nothing else changed. */
  ghost predicate Refreshed(g0: seq<seq<Case>>, g: seq<seq<Case>>, w: nat, h: nat, catalog: seq<Tile>)
    requires WellFormed(g0, w, h, catalog)
  {
    && Shaped(g, w, h)
    && forall y, x :: InBounds(w, h, x, y) ==>
         g[y][x] == g0[y][x].(entropy := CellEntropy(g0, w, h, catalog, x, y))
  }

  /** The two boards agree on which cases are resolved and on their tiles. */
  ghost predicate SameResolution(g1: seq<seq<Case>>, g2: seq<seq<Case>>, w: nat, h: nat) {
    && Shaped(g1, w, h) && Shaped(g2, w, h)
    && forall y, x :: InBounds(w, h, x, y) ==>
         g1[y][x].defined == g2[y][x].defined && g1[y][x].tile == g2[y][x].tile
  }

  /** Replacing one case between two boards that agree on resolution leaves them
      agreeing everywhere else, and everywhere when the new case resolves the
      same way. */
  lemma SameResolutionAfterStore(g0: seq<seq<Case>>, g1: seq<seq<Case>>, g3: seq<seq<Case>>,
                                 w: nat, h: nat, x: int, y: int, c: Case)
    requires SameResolution(g0, g1, w, h) && InBounds(w, h, x, y)
    requires SameResolution(g1[y := g1[y][x := c]], g3, w, h)
    ensures forall j, i :: InBounds(w, h, i, j) && (i != x || j != y) ==>
              g3[j][i].defined == g0[j][i].defined && g3[j][i].tile == g0[j][i].tile
    ensures c.defined == g1[y][x].defined && c.tile == g1[y][x].tile ==> SameResolution(g0, g3, w, h)
  {
  }

  /** Agreeing on resolution everywhere, then everywhere but at `(x, y)`, is
      agreeing everywhere but at `(x, y)`. */
  lemma SameResolutionChain(g0: seq<seq<Case>>, g1: seq<seq<Case>>, g2: seq<seq<Case>>,
                            w: nat, h: nat, x: int, y: int)
    requires SameResolution(g0, g1, w, h) && Shaped(g2, w, h)
    requires forall j, i :: InBounds(w, h, i, j) && (i != x || j != y) ==>
               g2[j][i].defined == g1[j][i].defined && g2[j][i].tile == g1[j][i].tile
    ensures forall j, i :: InBounds(w, h, i, j) && (i != x || j != y) ==>
              g2[j][i].defined == g0[j][i].defined && g2[j][i].tile == g0[j][i].tile
    ensures SameResolution(g1, g2, w, h) ==> SameResolution(g0, g2, w, h)
  {
  }

  /** Candidates depend only on what is resolved, never on cached entropies. */
  lemma SameResolutionSameCandidates(g1: seq<seq<Case>>, g2: seq<seq<Case>>, w: nat, h: nat,
                                     catalog: seq<Tile>, x: int, y: int)
    requires WellFormed(g1, w, h, catalog) && WellFormed(g2, w, h, catalog)
    requires SameResolution(g1, g2, w, h) && InBounds(w, h, x, y)
    ensures CandidatesAt(g1, w, h, catalog, x, y) == CandidatesAt(g2, w, h, catalog, x, y)
  {
    assert NeighbourTiles(g1, w, h, catalog, x, y) == NeighbourTiles(g2, w, h, catalog, x, y);
  }

  /** Recomputing every entropy leaves the board fresh and changes no tile. */
  lemma RefreshedIsFresh(g0: seq<seq<Case>>, g: seq<seq<Case>>, w: nat, h: nat, catalog: seq<Tile>)
    requires WellFormed(g0, w, h, catalog) && Refreshed(g0, g, w, h, catalog)
    ensures WellFormed(g, w, h, catalog) && SameResolution(g0, g, w, h)
    ensures Fresh(g, w, h, catalog)
  {
    assert WellFormed(g, w, h, catalog);
    forall y, x | InBounds(w, h, x, y)
      ensures g[y][x].entropy == CellEntropy(g, w, h, catalog, x, y)
    {
      SameResolutionSameCandidates(g0, g, w, h, catalog, x, y);
    }
  }

  /** A resolved case always has entropy 0 on a fresh board. */
  lemma FreshResolvedIsZero(g: seq<seq<Case>>, w: nat, h: nat, catalog: seq<Tile>, x: int, y: int)
    requires Fresh(g, w, h, catalog) && InBounds(w, h, x, y) && g[y][x].defined
    ensures g[y][x].entropy == 0
  {
  }

  /** On a fresh board, setting the entropy of a case without candidates to 0
      changes nothing. */
  lemma FreshZeroEntropyStore(g: seq<seq<Case>>, w: nat, h: nat, catalog: seq<Tile>, x: int, y: int)
    requires Fresh(g, w, h, catalog) && InBounds(w, h, x, y)
    requires CandidatesAt(g, w, h, catalog, x, y) == []
    ensures g[y := g[y][x := g[y][x].(entropy := 0)]] == g
  {
    assert g[y][x].(entropy := 0) == g[y][x];
    assert g[y][x := g[y][x]] == g[y];
  }

  /** Sum of the entropies of a row. */
  function RowSum(row: seq<Case>): int {
    if row == [] then 0 else RowSum(row[..|row| - 1]) + row[|row| - 1].entropy
  }

  /** Sum of the entropies of the whole board (`totalEntropy` after an update). */
  function GridSum(g: seq<seq<Case>>): int {
    if g == [] then 0 else GridSum(g[..|g| - 1]) + RowSum(g[|g| - 1])
  }

  /** The unresolved cases of a row, left to right. */
  function UnresolvedRow(row: seq<Case>): (r: seq<Case>)
    ensures |r| <= |row|
  {
    if row == [] then []
    else
      var last := row[|row| - 1];
      UnresolvedRow(row[..|row| - 1]) + (if last.defined then [] else [last])
  }

  /** A case is listed for a row exactly when it is in the row and unresolved. */
  lemma {:induction false} UnresolvedRowMembers(row: seq<Case>)
    ensures forall c :: c in UnresolvedRow(row) <==> c in row && !c.defined
  {
    if row != [] {
      var init := row[..|row| - 1];
      UnresolvedRowMembers(init);
      assert row == init + [row[|row| - 1]];
    }
  }

  ghost predicate InGrid(c: Case, g: seq<seq<Case>>) {
    exists y :: 0 <= y < |g| && c in g[y]
  }

  /** The unresolved cases of the board, row after row. */
  function Unresolved(g: seq<seq<Case>>): seq<Case> {
    if g == [] then [] else Unresolved(g[..|g| - 1]) + UnresolvedRow(g[|g| - 1])
  }

  /** A case is listed exactly when it is on the board and unresolved. */
  lemma {:induction false} UnresolvedMembers(g: seq<seq<Case>>)
    ensures forall c :: c in Unresolved(g) <==> InGrid(c, g) && !c.defined
  {
    if g != [] {
      var init := g[..|g| - 1];
      var last := g[|g| - 1];
      UnresolvedMembers(init);
      UnresolvedRowMembers(last);
      forall c | InGrid(c, init) ensures InGrid(c, g) {
        var y :| 0 <= y < |init| && c in init[y];
        assert c in g[y];
      }
      forall c | c in last ensures InGrid(c, g) {
        assert c in g[|g| - 1];
      }
      forall c | InGrid(c, g) ensures InGrid(c, init) || c in last {
        var y :| 0 <= y < |g| && c in g[y];
        if y < |init| {
          assert c in init[y];
        }
      }
    }
  }

  /** An unresolved case of a well-formed board is stored at its own coordinates. */
  lemma UnresolvedAt(g: seq<seq<Case>>, w: nat, h: nat, catalog: seq<Tile>, c: Case)
    requires WellFormed(g, w, h, catalog) && c in Unresolved(g)
    ensures InBounds(w, h, c.x, c.y) && g[c.y][c.x] == c && !c.defined
  {
    UnresolvedMembers(g);
    var y :| 0 <= y < |g| && c in g[y];
    var x :| 0 <= x < |g[y]| && g[y][x] == c;
    assert InBounds(w, h, x, y);
  }

  /** Every unresolved case of a well-formed board is in the list of unresolved cases. */
  lemma UnresolvedListed(g: seq<seq<Case>>, w: nat, h: nat, catalog: seq<Tile>, x: int, y: int)
    requires WellFormed(g, w, h, catalog) && InBounds(w, h, x, y) && !g[y][x].defined
    ensures g[y][x] in Unresolved(g)
  {
    UnresolvedMembers(g);
    assert InGrid(g[y][x], g);
  }

  /** Replacing one case by a case that sits at that position and holds a tile
      only when resolved keeps the board well formed and changes nothing else. */
  lemma StoreKeepsWellFormed(g: seq<seq<Case>>, w: nat, h: nat, catalog: seq<Tile>, x: int, y: int, c: Case)
    requires WellFormed(g, w, h, catalog) && InBounds(w, h, x, y) && CellOk(c, x, y, catalog)
    ensures WellFormed(g[y := g[y][x := c]], w, h, catalog)
    ensures forall j, i :: InBounds(w, h, i, j) && (i != x || j != y) ==> g[y := g[y][x := c]][j][i] == g[j][i]
  {
  }

  /** The position next to `(x, y)` in direction `d`. */
  function Toward(x: int, y: int, d: nat): (int, int)
    requires d < 4
  {
    if d == 0 then (x, y - 1) else if d == 1 then (x + 1, y) else if d == 2 then (x, y + 1) else (x - 1, y)
  }

  /** Neighbour `d` of `(x, y)` is the case at the next position in direction
      `d`, and from there direction `Opposite(d)` leads back to `(x, y)`. */
  lemma NeighbourToward(g: seq<seq<Case>>, w: nat, h: nat, catalog: seq<Tile>, x: int, y: int, d: nat)
    requires WellFormed(g, w, h, catalog) && d < 4
    ensures var p := Toward(x, y, d);
            && NeighbourTiles(g, w, h, catalog, x, y)[d] == Lookup(g, w, h, catalog, p.0, p.1).tile
            && Toward(p.0, p.1, Opposite(d)) == (x, y)
  {
  }

  /** No two adjacent tiles clash: every resolved case fits each neighbour that
      holds a tile, tile 0 beyond the border included. */
  ghost predicate Consistent(g: seq<seq<Case>>, w: nat, h: nat, catalog: seq<Tile>) {
    && WellFormed(g, w, h, catalog)
    && forall y, x :: InBounds(w, h, x, y) && g[y][x].defined ==>
         Admits(g[y][x].tile.value, NeighbourTiles(g, w, h, catalog, x, y))
  }

  /** On a board without clashes any two adjacent resolved cases fit each
      other across their shared edge. */
  lemma ConsistentAdjacentFit(g: seq<seq<Case>>, w: nat, h: nat, catalog: seq<Tile>, x: int, y: int, d: nat)
    requires Consistent(g, w, h, catalog) && InBounds(w, h, x, y) && d < 4
    requires InBounds(w, h, Toward(x, y, d).0, Toward(x, y, d).1)
    requires g[y][x].defined && g[Toward(x, y, d).1][Toward(x, y, d).0].defined
    ensures HasFourSides(g[y][x].tile.value)
    ensures HasFourSides(g[Toward(x, y, d).1][Toward(x, y, d).0].tile.value)
    ensures Fits(g[y][x].tile.value, d, g[Toward(x, y, d).1][Toward(x, y, d).0].tile.value)
  {
    NeighbourToward(g, w, h, catalog, x, y, d);
  }

  /** On a board without clashes a resolved case on the border fits tile 0 on
      its outer side. */
  lemma ConsistentBorderFit(g: seq<seq<Case>>, w: nat, h: nat, catalog: seq<Tile>, x: int, y: int, d: nat)
    requires Consistent(g, w, h, catalog) && InBounds(w, h, x, y) && d < 4
    requires !InBounds(w, h, Toward(x, y, d).0, Toward(x, y, d).1) && g[y][x].defined
    ensures HasFourSides(g[y][x].tile.value) && HasFourSides(catalog[0])
    ensures Fits(g[y][x].tile.value, d, catalog[0])
  {
    NeighbourToward(g, w, h, catalog, x, y, d);
  }

  /** A fresh board has nothing resolved, so nothing clashes. */
  lemma InitialConsistent(w: nat, h: nat, catalog: seq<Tile>)
    requires CatalogOk(catalog)
    ensures Consistent(InitialGrid(w, h, catalog), w, h, catalog)
  {
  }

  /** Whether a board clashes depends only on which cases are resolved and their
      tiles, never on cached entropies. */
  lemma SameResolutionConsistent(g1: seq<seq<Case>>, g2: seq<seq<Case>>, w: nat, h: nat, catalog: seq<Tile>)
    requires Consistent(g1, w, h, catalog) && WellFormed(g2, w, h, catalog)
    requires SameResolution(g1, g2, w, h)
    ensures Consistent(g2, w, h, catalog)
  {
    forall y, x | InBounds(w, h, x, y) && g2[y][x].defined
      ensures Admits(g2[y][x].tile.value, NeighbourTiles(g2, w, h, catalog, x, y))
    {
      assert NeighbourTiles(g1, w, h, catalog, x, y) == NeighbourTiles(g2, w, h, catalog, x, y);
    }
  }

  /** Placing a candidate at `(x, y)` cannot make a resolved neighbour clash:
      the candidate fits that neighbour, and fitting is symmetric. */
  lemma PlaceFitsNeighbour(g: seq<seq<Case>>, w: nat, h: nat, catalog: seq<Tile>, x: int, y: int,
                           t: Tile, i: int, j: int, d: nat)
    requires WellFormed(g, w, h, catalog) && InBounds(w, h, x, y) && InBounds(w, h, i, j)
    requires t in CandidatesAt(g, w, h, catalog, x, y)
    requires g[j][i].defined && d < 4 && Toward(i, j, d) == (x, y)
    ensures HasFourSides(t) && HasFourSides(g[j][i].tile.value)
    ensures Fits(g[j][i].tile.value, d, t)
  {
    var s := g[j][i].tile.value;
    var n := NeighbourTiles(g, w, h, catalog, x, y);
    assert !g[y][x].defined;
    CandidatesMembers(catalog, n);
    NeighbourToward(g, w, h, catalog, i, j, d);
    NeighbourToward(g, w, h, catalog, x, y, Opposite(d));
    assert n[Opposite(d)] == Some(s);
    FitsSymmetric(t, Opposite(d), s);
  }

  /** Storing, at an unresolved position, a case that is either unresolved or
      holds one of that position's candidates keeps the board free of clashes. */
  lemma PlaceKeepsConsistent(g: seq<seq<Case>>, w: nat, h: nat, catalog: seq<Tile>, x: int, y: int, c: Case)
    requires Consistent(g, w, h, catalog) && InBounds(w, h, x, y) && !g[y][x].defined
    requires CellOk(c, x, y, catalog)
    requires c.defined ==> c.tile.value in CandidatesAt(g, w, h, catalog, x, y)
    ensures Consistent(g[y := g[y][x := c]], w, h, catalog)
  {
    var g': seq<seq<Case>> := g[y := g[y][x := c]];
    StoreKeepsWellFormed(g, w, h, catalog, x, y, c);
    forall j, i | InBounds(w, h, i, j) && g'[j][i].defined
      ensures Admits(g'[j][i].tile.value, NeighbourTiles(g', w, h, catalog, i, j))
    {
      if i == x && j == y {
        var n := NeighbourTiles(g, w, h, catalog, x, y);
        assert NeighbourTiles(g', w, h, catalog, x, y) == n;
        CandidatesMembers(catalog, n);
      } else {
        PlaceKeepsNeighbourFit(g, w, h, catalog, x, y, c, i, j);
      }
    }
  }

  /** The other half of `PlaceKeepsConsistent`: a resolved case at `(i, j)`
      still fits all its neighbours after the store at `(x, y)`. */
  lemma PlaceKeepsNeighbourFit(g: seq<seq<Case>>, w: nat, h: nat, catalog: seq<Tile>, x: int, y: int,
                               c: Case, i: int, j: int)
    requires Consistent(g, w, h, catalog) && InBounds(w, h, x, y) && !g[y][x].defined
    requires CellOk(c, x, y, catalog)
    requires c.defined ==> c.tile.value in CandidatesAt(g, w, h, catalog, x, y)
    requires InBounds(w, h, i, j) && (i != x || j != y) && g[j][i].defined
    ensures WellFormed(g[y := g[y][x := c]], w, h, catalog)
    ensures Admits(g[j][i].tile.value, NeighbourTiles(g[y := g[y][x := c]], w, h, catalog, i, j))
  {
    var g': seq<seq<Case>> := g[y := g[y][x := c]];
    StoreKeepsWellFormed(g, w, h, catalog, x, y, c);
    var s := g[j][i].tile.value;
    var n := NeighbourTiles(g, w, h, catalog, i, j);
    var n' := NeighbourTiles(g', w, h, catalog, i, j);
    assert Admits(s, n);
    forall d | 0 <= d < 4 && n'[d].Some? ensures Fits(s, d, n'[d].value) {
      var p := Toward(i, j, d);
      NeighbourToward(g, w, h, catalog, i, j, d);
      NeighbourToward(g', w, h, catalog, i, j, d);
      if p == (x, y) {
        PlaceFitsNeighbour(g, w, h, catalog, x, y, c.tile.value, i, j, d);
      } else {
        assert Lookup(g', w, h, catalog, p.0, p.1) == Lookup(g, w, h, catalog, p.0, p.1);
      }
    }
  }

  /** The cases before `(x, y)` in reading order carry their entropy as of `g0`;
      the others are as in `g0`. */
  ghost predicate RefreshedBefore(g0: seq<seq<Case>>, g: seq<seq<Case>>, w: nat, h: nat, catalog: seq<Tile>, x: int, y: int)
    requires WellFormed(g0, w, h, catalog)
  {
    && Shaped(g, w, h)
    && forall j, i :: InBounds(w, h, i, j) ==>
         g[j][i] == if j < y || (j == y && i < x)
                    then g0[j][i].(entropy := CellEntropy(g0, w, h, catalog, i, j))
                    else g0[j][i]
  }

  /** Partway through a refresh the board is well formed, resolves the same
      cases as `g0`, and the next case has the candidates it had in `g0`. */
  lemma RefreshedBeforeOk(g0: seq<seq<Case>>, g: seq<seq<Case>>, w: nat, h: nat, catalog: seq<Tile>, x: int, y: int)
    requires WellFormed(g0, w, h, catalog) && RefreshedBefore(g0, g, w, h, catalog, x, y)
    ensures WellFormed(g, w, h, catalog) && SameResolution(g0, g, w, h)
    ensures InBounds(w, h, x, y) ==>
              CandidatesAt(g, w, h, catalog, x, y) == CandidatesAt(g0, w, h, catalog, x, y)
  {
    assert WellFormed(g, w, h, catalog);
    if InBounds(w, h, x, y) {
      SameResolutionSameCandidates(g0, g, w, h, catalog, x, y);
    }
  }

  /** Refreshing the case at `(x, y)` moves the refreshed part one case on. */
  lemma RefreshedBeforeStep(g0: seq<seq<Case>>, g: seq<seq<Case>>, w: nat, h: nat, catalog: seq<Tile>, x: int, y: int)
    requires WellFormed(g0, w, h, catalog) && RefreshedBefore(g0, g, w, h, catalog, x, y)
    requires InBounds(w, h, x, y)
    ensures RefreshedBefore(g0, g[y := g[y][x := g[y][x].(entropy := CellEntropy(g0, w, h, catalog, x, y))]],
                            w, h, catalog, x + 1, y)
  {
  }

  /** A refreshed row end is the start of the next row. */
  lemma RefreshedBeforeNextRow(g0: seq<seq<Case>>, g: seq<seq<Case>>, w: nat, h: nat, catalog: seq<Tile>, y: int)
    requires WellFormed(g0, w, h, catalog) && RefreshedBefore(g0, g, w, h, catalog, w, y)
    ensures RefreshedBefore(g0, g, w, h, catalog, 0, y + 1)
  {
  }

  /** Refreshed before the end of the board is refreshed. */
  lemma RefreshedBeforeEnd(g0: seq<seq<Case>>, g: seq<seq<Case>>, w: nat, h: nat, catalog: seq<Tile>)
    requires WellFormed(g0, w, h, catalog) && RefreshedBefore(g0, g, w, h, catalog, 0, h)
    ensures Refreshed(g0, g, w, h, catalog)
  {
  }

  /** The running total of a row-by-row walk grows by the entropy of the case
      just visited, whatever that case was changed to. */
  lemma PartialSumStep(g: seq<seq<Case>>, g': seq<seq<Case>>, x: nat, y: nat)
    requires y < |g| == |g'| && x < |g[y]| == |g'[y]|
    requires forall j :: 0 <= j < |g| && j != y ==> g'[j] == g[j]
    requires forall i :: 0 <= i < |g[y]| && i != x ==> g'[y][i] == g[y][i]
    ensures GridSum(g'[..y]) + RowSum(g'[y][..x + 1]) == GridSum(g[..y]) + RowSum(g[y][..x]) + g'[y][x].entropy
  {
    assert g'[..y] == g[..y];
    assert g'[y][..x] == g[y][..x];
    assert g'[y][..x + 1][..x] == g'[y][..x];
  }

  /** At the end of a row the running total is the total of the rows so far. */
  lemma PartialSumRowEnd(g: seq<seq<Case>>, y: nat)
    requires y < |g|
    ensures GridSum(g[..y]) + RowSum(g[y][..|g[y]|]) == GridSum(g[..y + 1])
  {
    assert g[y][..|g[y]|] == g[y];
    assert g[..y + 1][..y] == g[..y];
  }

  /** Visiting one more case of a row adds it to the unresolved list when it is
      unresolved. */
  lemma PartialUnresolvedStep(g: seq<seq<Case>>, x: nat, y: nat)
    requires y < |g| && x < |g[y]|
    ensures Unresolved(g[..y]) + UnresolvedRow(g[y][..x + 1]) ==
              Unresolved(g[..y]) + UnresolvedRow(g[y][..x]) + (if g[y][x].defined then [] else [g[y][x]])
  {
    assert g[y][..x + 1][..x] == g[y][..x];
  }

  /** At the end of a row the unresolved list is that of the rows so far. */
  lemma PartialUnresolvedRowEnd(g: seq<seq<Case>>, y: nat)
    requires y < |g|
    ensures Unresolved(g[..y]) + UnresolvedRow(g[y][..|g[y]|]) == Unresolved(g[..y + 1])
  {
    assert g[y][..|g[y]|] == g[y];
    assert g[..y + 1][..y] == g[..y];
  }

  /** A nonzero row sum comes from some nonzero entropy. */
  lemma {:induction false} RowSumNonzero(row: seq<Case>)
    requires RowSum(row) != 0
    ensures exists c :: c in row && c.entropy != 0
  {
    var last := row[|row| - 1];
    if last.entropy == 0 {
      RowSumNonzero(row[..|row| - 1]);
      var c :| c in row[..|row| - 1] && c.entropy != 0;
      assert c in row;
    } else {
      assert last in row;
    }
  }

  /** A nonzero board sum comes from some nonzero entropy. */
  lemma {:induction false} GridSumNonzero(g: seq<seq<Case>>)
    requires GridSum(g) != 0
    ensures exists c :: InGrid(c, g) && c.entropy != 0
  {
    var init := g[..|g| - 1];
    if RowSum(g[|g| - 1]) != 0 {
      RowSumNonzero(g[|g| - 1]);
      var c :| c in g[|g| - 1] && c.entropy != 0;
      assert InGrid(c, g);
    } else {
      GridSumNonzero(init);
      var c :| InGrid(c, init) && c.entropy != 0;
      var y :| 0 <= y < |init| && c in init[y];
      assert c in g[y];
    }
  }

  /** On a fresh board a nonzero total means some case is still unresolved. */
  lemma NonzeroTotalHasUnresolved(g: seq<seq<Case>>, w: nat, h: nat, catalog: seq<Tile>)
    requires Fresh(g, w, h, catalog) && GridSum(g) != 0
    ensures |Unresolved(g)| > 0
  {
    GridSumNonzero(g);
    var c :| InGrid(c, g) && c.entropy != 0;
    var y :| 0 <= y < |g| && c in g[y];
    var x :| 0 <= x < |g[y]| && g[y][x] == c;
    assert InBounds(w, h, x, y);
    assert !c.defined;
    UnresolvedMembers(g);
    assert c in Unresolved(g);
  }

  /** On a fresh board with every case resolved the total is 0. */
  lemma AllResolvedTotalZero(g: seq<seq<Case>>, w: nat, h: nat, catalog: seq<Tile>)
    requires Fresh(g, w, h, catalog) && Unresolved(g) == []
    ensures GridSum(g) == 0
  {
    if GridSum(g) != 0 {
      NonzeroTotalHasUnresolved(g, w, h, catalog);
    }
  }

  /** Entropies are never negative on a fresh board, so a zero total means every
      entropy is zero. */
  lemma {:induction false} ZeroTotalZeroEntropies(g: seq<seq<Case>>)
    requires forall c :: InGrid(c, g) ==> c.entropy >= 0
    requires GridSum(g) == 0
    ensures forall c :: InGrid(c, g) ==> c.entropy == 0
  {
    if g != [] {
      var init := g[..|g| - 1];
      var last := g[|g| - 1];
      forall c | InGrid(c, init) ensures InGrid(c, g) {
        var y :| 0 <= y < |init| && c in init[y];
        assert c in g[y];
      }
      assert forall c :: c in last ==> InGrid(c, g);
      GridSumNonNegative(init);
      RowSumNonNegative(last);
      ZeroTotalZeroEntropies(init);
      RowSumZero(last);
      forall c | InGrid(c, g) ensures c.entropy == 0 {
        var y :| 0 <= y < |g| && c in g[y];
        if y < |init| { assert c in init[y]; }
      }
    }
  }

  /** On a fresh board with total 0 no case has a candidate left. */
  lemma ZeroTotalNoCandidates(g: seq<seq<Case>>, w: nat, h: nat, catalog: seq<Tile>, x: int, y: int)
    requires Fresh(g, w, h, catalog) && GridSum(g) == 0 && InBounds(w, h, x, y)
    ensures CandidatesAt(g, w, h, catalog, x, y) == []
  {
    forall c | InGrid(c, g) ensures c.entropy >= 0 {
      var j :| 0 <= j < |g| && c in g[j];
      var i :| 0 <= i < |g[j]| && g[j][i] == c;
      assert InBounds(w, h, i, j);
    }
    ZeroTotalZeroEntropies(g);
    assert InGrid(g[y][x], g);
  }

  lemma {:induction false} RowSumNonNegative(row: seq<Case>)
    requires forall c :: c in row ==> c.entropy >= 0
    ensures RowSum(row) >= 0
  {
    if row != [] {
      assert forall c :: c in row[..|row| - 1] ==> c in row;
      assert row[|row| - 1] in row;
      RowSumNonNegative(row[..|row| - 1]);
    }
  }

  lemma {:induction false} RowSumZero(row: seq<Case>)
    requires forall c :: c in row ==> c.entropy >= 0
    requires RowSum(row) == 0
    ensures forall c :: c in row ==> c.entropy == 0
  {
    if row != [] {
      var init := row[..|row| - 1];
      assert forall c :: c in init ==> c in row;
      assert row[|row| - 1] in row;
      RowSumNonNegative(init);
      RowSumZero(init);
      assert row == init + [row[|row| - 1]];
    }
  }

  lemma {:induction false} GridSumNonNegative(g: seq<seq<Case>>)
    requires forall c :: InGrid(c, g) ==> c.entropy >= 0
    ensures GridSum(g) >= 0
  {
    if g != [] {
      var init := g[..|g| - 1];
      forall c | InGrid(c, init) ensures InGrid(c, g) {
        var y :| 0 <= y < |init| && c in init[y];
        assert c in g[y];
      }
      assert forall c :: c in g[|g| - 1] ==> InGrid(c, g);
      GridSumNonNegative(init);
      RowSumNonNegative(g[|g| - 1]);
    }
  }

  lemma {:induction false} UnresolvedRowSameFlags(r1: seq<Case>, r2: seq<Case>)
    requires |r1| == |r2| && forall i :: 0 <= i < |r1| ==> r1[i].defined == r2[i].defined
    ensures |UnresolvedRow(r1)| == |UnresolvedRow(r2)|
  {
    if r1 != [] {
      var n := |r1| - 1;
      assert forall i :: 0 <= i < n ==> r1[..n][i] == r1[i] && r2[..n][i] == r2[i];
      UnresolvedRowSameFlags(r1[..n], r2[..n]);
    }
  }

  lemma {:induction false} UnresolvedRowResolveOne(r1: seq<Case>, r2: seq<Case>, k: int)
    requires |r1| == |r2| && 0 <= k < |r1| && !r1[k].defined && r2[k].defined
    requires forall i :: 0 <= i < |r1| && i != k ==> r1[i].defined == r2[i].defined
    ensures |UnresolvedRow(r2)| == |UnresolvedRow(r1)| - 1
  {
    var n := |r1| - 1;
    assert forall i :: 0 <= i < n ==> r1[..n][i] == r1[i] && r2[..n][i] == r2[i];
    if k == n {
      UnresolvedRowSameFlags(r1[..n], r2[..n]);
    } else {
      UnresolvedRowResolveOne(r1[..n], r2[..n], k);
    }
  }

  /** The first `n` rows of a board of height `h` form a board of height `n`. */
  lemma ShapedPrefix(g: seq<seq<Case>>, w: nat, h: nat, n: nat)
    requires Shaped(g, w, h) && n <= h
    ensures Shaped(g[..n], w, n)
    ensures forall y, x :: InBounds(w, n, x, y) ==> InBounds(w, h, x, y) && g[..n][y][x] == g[y][x]
  {
  }

  /** The number of unresolved cases depends only on which cases are resolved. */
  lemma {:induction false} UnresolvedCountSameFlags(g1: seq<seq<Case>>, g2: seq<seq<Case>>, w: nat, h: nat)
    requires Shaped(g1, w, h) && Shaped(g2, w, h)
    requires forall y, x :: InBounds(w, h, x, y) ==> g1[y][x].defined == g2[y][x].defined
    ensures |Unresolved(g1)| == |Unresolved(g2)|
  {
    if h > 0 {
      var n := h - 1;
      ShapedPrefix(g1, w, h, n);
      ShapedPrefix(g2, w, h, n);
      UnresolvedCountSameFlags(g1[..n], g2[..n], w, n);
      assert forall i :: 0 <= i < w ==> InBounds(w, h, i, n);
      UnresolvedRowSameFlags(g1[n], g2[n]);
    }
  }

  /** Resolving one case and nothing else lowers the number of unresolved cases
      by exactly one. */
  lemma {:induction false} UnresolvedCountResolveOne(g1: seq<seq<Case>>, g2: seq<seq<Case>>, w: nat, h: nat, x: int, y: int)
    requires Shaped(g1, w, h) && Shaped(g2, w, h) && InBounds(w, h, x, y)
    requires !g1[y][x].defined && g2[y][x].defined
    requires forall y', x' :: InBounds(w, h, x', y') && (x' != x || y' != y) ==>
               g1[y'][x'].defined == g2[y'][x'].defined
    ensures |Unresolved(g2)| == |Unresolved(g1)| - 1
  {
    var n := h - 1;
    ShapedPrefix(g1, w, h, n);
    ShapedPrefix(g2, w, h, n);
    assert forall i :: 0 <= i < w ==> InBounds(w, h, i, n);
    if y == n {
      UnresolvedCountSameFlags(g1[..n], g2[..n], w, n);
      UnresolvedRowResolveOne(g1[n], g2[n], x);
    } else {
      UnresolvedCountResolveOne(g1[..n], g2[..n], w, n, x, y);
      UnresolvedRowSameFlags(g1[n], g2[n]);
    }
  }

  lemma {:induction false} UnresolvedRowAll(row: seq<Case>)
    requires forall i :: 0 <= i < |row| ==> !row[i].defined
    ensures |UnresolvedRow(row)| == |row|
  {
    if row != [] {
      UnresolvedRowAll(row[..|row| - 1]);
    }
  }

  lemma MulSucc(w: nat, n: nat)
    ensures w * n + w == w * (n + 1)
  {
  }

  /** On a board with no resolved case all `w * h` cases are unresolved. */
  lemma {:induction false} UnresolvedCountAll(g: seq<seq<Case>>, w: nat, h: nat)
    requires Shaped(g, w, h)
    requires forall y, x :: InBounds(w, h, x, y) ==> !g[y][x].defined
    ensures |Unresolved(g)| == w * h
  {
    if h > 0 {
      var n := h - 1;
      var init := g[..n];
      assert Shaped(init, w, n);
      assert forall y, x :: InBounds(w, n, x, y) ==> !init[y][x].defined by {
        forall y, x | InBounds(w, n, x, y) ensures !init[y][x].defined {
          assert InBounds(w, h, x, y) && init[y] == g[y];
        }
      }
      UnresolvedCountAll(init, w, n);
      assert forall i :: 0 <= i < w ==> InBounds(w, h, i, n);
      UnresolvedRowAll(g[n]);
      assert |Unresolved(g)| == |Unresolved(init)| + |UnresolvedRow(g[n])|;
      MulSucc(w, n);
    }
  }
}
