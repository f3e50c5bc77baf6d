/** The generation loop: while the board total is not 0, rank the unresolved
    cases by entropy, pick one of those tied at the lowest entropy, resolve it
    to one of its candidates and refresh the board. */
module Collapse {
  import opened Wrappers
  import opened Tiles
  import opened Grid
  import opened Ranking
  import opened Boards

  /** How a run ends: the total reached 0, or the chosen case had no candidate
      (where the original program fails inside `random.choices`). */
  datatype Outcome = Finished | Contradiction(x: int, y: int)

  /** The cases of `cases` whose entropy is `e`, in their order. */
  function TiedAt(cases: seq<Case>, e: int): (r: seq<Case>)
    ensures forall c :: c in r <==> c in cases && c.entropy == e
    ensures |r| <= |cases|
  {
    if cases == [] then []
    else
      var last := cases[|cases| - 1];
      TiedAt(cases[..|cases| - 1], e) + (if last.entropy == e then [last] else [])
  }

  /** The choice at the head of the loop body: refresh and rank the board,
      keep the cases tied with the first, pick one of them freely. The chosen
      case is unresolved and has the fewest candidates of all unresolved cases. */
  method Choose(b: Board) returns (x: int, y: int)
    requires b.Valid() && Unresolved(b.grid) != []
    modifies b
    ensures b.Valid() && Refreshed(old(b.grid), b.grid, b.width, b.height, b.catalog)
    ensures b.totalEntropy == GridSum(b.grid)
    ensures Consistent(old(b.grid), b.width, b.height, b.catalog) ==> Consistent(b.grid, b.width, b.height, b.catalog)
    ensures InBounds(b.width, b.height, x, y) && !old(b.grid)[y][x].defined
    ensures forall j, i :: InBounds(b.width, b.height, i, j) && !old(b.grid)[j][i].defined ==>
              CellEntropy(old(b.grid), b.width, b.height, b.catalog, x, y) <=
              CellEntropy(old(b.grid), b.width, b.height, b.catalog, i, j)
  {
    ghost var g0: seq<seq<Case>> := b.grid;
    var cases := b.GetCaseByEntropy();
    ghost var g1: seq<seq<Case>> := b.grid;
    RefreshedIsFresh(g0, g1, b.width, b.height, b.catalog);
    if Consistent(g0, b.width, b.height, b.catalog) {
      SameResolutionConsistent(g0, g1, b.width, b.height, b.catalog);
    }
    UnresolvedCountSameFlags(g0, g1, b.width, b.height);
    assert |cases| == |Unresolved(g1)| by {
      assert |multiset(cases)| == |multiset(Unresolved(g1))|;
    }
    var tied := TiedAt(cases, cases[0].entropy);
    assert cases[0] in tied;
    var k :| 0 <= k < |tied|;
    var c := tied[k];
    TiedIsLeast(g0, g1, b.width, b.height, b.catalog, cases, c);
    x, y := c.x, c.y;
  }

  /** The end of the loop body: resolve the case at `(x, y)` to one of its
      candidates and refresh the board. With no candidate the pass fails and
      nothing is resolved. No other case changes. */
  method Resolve(b: Board, x: int, y: int) returns (ok: bool)
    requires b.Valid() && InBounds(b.width, b.height, x, y) && !b.grid[y][x].defined
    modifies b
    ensures b.Valid()
    ensures ok <==> CandidatesAt(old(b.grid), b.width, b.height, b.catalog, x, y) != []
    ensures ok ==> && b.grid[y][x].defined
                   && b.grid[y][x].tile.value in CandidatesAt(old(b.grid), b.width, b.height, b.catalog, x, y)
    ensures forall j, i :: InBounds(b.width, b.height, i, j) && (i != x || j != y) ==>
              b.grid[j][i].defined == old(b.grid)[j][i].defined && b.grid[j][i].tile == old(b.grid)[j][i].tile
    ensures ok ==> && |Unresolved(b.grid)| == |Unresolved(old(b.grid))| - 1
                   && Fresh(b.grid, b.width, b.height, b.catalog)
                   && b.totalEntropy == GridSum(b.grid)
    ensures !ok ==> SameResolution(old(b.grid), b.grid, b.width, b.height)
    ensures !ok ==> b.totalEntropy == old(b.totalEntropy)
    ensures !ok && Fresh(old(b.grid), b.width, b.height, b.catalog) ==> b.grid == old(b.grid)
    ensures Consistent(old(b.grid), b.width, b.height, b.catalog) ==> Consistent(b.grid, b.width, b.height, b.catalog)
  {
    ghost var g0: seq<seq<Case>> := b.grid;
    var r := b.Define(x, y);
    ghost var g1: seq<seq<Case>> := b.grid;
    ok := r.Some?;
    if ok {
      UnresolvedCountResolveOne(g0, g1, b.width, b.height, x, y);
      b.Update();
      RefreshedIsFresh(g1, b.grid, b.width, b.height, b.catalog);
      UnresolvedCountSameFlags(g1, b.grid, b.width, b.height);
    } else if Fresh(g0, b.width, b.height, b.catalog) {
      FreshZeroEntropyStore(g0, b.width, b.height, b.catalog, x, y);
    }
    assert g1 == g0[y := g0[y][x := g1[y][x]]];
    assert SameResolution(g1, b.grid, b.width, b.height);
    assert SameResolution(g0, g0, b.width, b.height);
    SameResolutionAfterStore(g0, g0, b.grid, b.width, b.height, x, y, g1[y][x]);
  }

  /** One pass of the loop body. The chosen case is unresolved and has the
      fewest candidates of all unresolved cases; it is resolved to one of them
      when there is one, and no other case changes its tile. */
  method Step(b: Board) returns (x: int, y: int, ok: bool)
    requires b.Valid() && Unresolved(b.grid) != []
    modifies b
    ensures b.Valid()
    ensures InBounds(b.width, b.height, x, y) && !old(b.grid)[y][x].defined
    ensures forall j, i :: InBounds(b.width, b.height, i, j) && !old(b.grid)[j][i].defined ==>
              CellEntropy(old(b.grid), b.width, b.height, b.catalog, x, y) <=
              CellEntropy(old(b.grid), b.width, b.height, b.catalog, i, j)
    ensures ok <==> CandidatesAt(old(b.grid), b.width, b.height, b.catalog, x, y) != []
    ensures ok ==> && b.grid[y][x].defined
                   && b.grid[y][x].tile.value in CandidatesAt(old(b.grid), b.width, b.height, b.catalog, x, y)
    ensures forall j, i :: InBounds(b.width, b.height, i, j) && (i != x || j != y) ==>
              b.grid[j][i].defined == old(b.grid)[j][i].defined && b.grid[j][i].tile == old(b.grid)[j][i].tile
    ensures ok ==> |Unresolved(b.grid)| == |Unresolved(old(b.grid))| - 1
    ensures !ok ==> SameResolution(old(b.grid), b.grid, b.width, b.height)
    ensures Fresh(b.grid, b.width, b.height, b.catalog) && b.totalEntropy == GridSum(b.grid)
    ensures Consistent(old(b.grid), b.width, b.height, b.catalog) ==> Consistent(b.grid, b.width, b.height, b.catalog)
  {
    ghost var g0: seq<seq<Case>> := b.grid;
    x, y := Choose(b);
    ghost var g1: seq<seq<Case>> := b.grid;
    RefreshedIsFresh(g0, g1, b.width, b.height, b.catalog);
    SameResolutionSameCandidates(g0, g1, b.width, b.height, b.catalog, x, y);
    UnresolvedCountSameFlags(g0, g1, b.width, b.height);
    ok := Resolve(b, x, y);
    SameResolutionChain(g0, g1, b.grid, b.width, b.height, x, y);
  }

  /** A case tied with the first of a ranking by entropy of a refreshed board is
      unresolved, stored at its own position, and has no more candidates than
      any other unresolved case had before the refresh. */
  lemma TiedIsLeast(g0: seq<seq<Case>>, g1: seq<seq<Case>>, w: nat, h: nat, catalog: seq<Tile>,
                    cases: seq<Case>, c: Case)
    requires WellFormed(g0, w, h, catalog) && Refreshed(g0, g1, w, h, catalog)
    requires multiset(cases) == multiset(Unresolved(g1)) && RankedBy(EntropyKey, cases)
    requires c in cases && c.entropy == cases[0].entropy
    ensures InBounds(w, h, c.x, c.y) && !g0[c.y][c.x].defined
    ensures forall j, i :: InBounds(w, h, i, j) && !g0[j][i].defined ==>
              CellEntropy(g0, w, h, catalog, c.x, c.y) <= CellEntropy(g0, w, h, catalog, i, j)
  {
    RefreshedIsFresh(g0, g1, w, h, catalog);
    assert c in multiset(cases);
    UnresolvedAt(g1, w, h, catalog, c);
    forall j, i | InBounds(w, h, i, j) && !g0[j][i].defined
      ensures CellEntropy(g0, w, h, catalog, c.x, c.y) <= CellEntropy(g0, w, h, catalog, i, j)
    {
      UnresolvedListed(g1, w, h, catalog, i, j);
      assert g1[j][i] in multiset(cases);
      RankedFirstIsLeast(EntropyKey, cases, g1[j][i]);
    }
  }

  /** The original program's top level on a `w` by `h` board: loop while the
      board total is not 0. Every pass resolves one more case, so there are at
      most `w * h` passes. */
  method Generate(w: nat, h: nat, catalog: seq<Tile>) returns (b: Board, outcome: Outcome, ghost steps: nat)
    requires CatalogOk(catalog)
    ensures fresh(b) && b.Valid()
    ensures b.width == w && b.height == h && b.catalog == catalog
    ensures steps <= w * h && |Unresolved(b.grid)| == w * h - steps
    ensures Consistent(b.grid, w, h, catalog)
    ensures outcome == Finished ==>
              && b.totalEntropy == 0
              && Fresh(b.grid, w, h, catalog)
              && forall y, x :: InBounds(w, h, x, y) && !b.grid[y][x].defined ==>
                   CandidatesAt(b.grid, w, h, catalog, x, y) == []
    ensures outcome.Contradiction? ==>
              && InBounds(w, h, outcome.x, outcome.y)
              && !b.grid[outcome.y][outcome.x].defined
              && CandidatesAt(b.grid, w, h, catalog, outcome.x, outcome.y) == []
  {
    b := new Board(w, h, catalog);
    steps := 0;
    UnresolvedCountAll(b.grid, w, h);
    InitialConsistent(w, h, catalog);
    ghost var started := false;
    while b.totalEntropy != 0
      invariant b.Valid() && b.width == w && b.height == h && b.catalog == catalog
      invariant Consistent(b.grid, w, h, catalog)
      invariant steps + |Unresolved(b.grid)| == w * h
      invariant started ==> Fresh(b.grid, w, h, catalog) && b.totalEntropy == GridSum(b.grid)
      invariant !started ==> steps == 0 && b.totalEntropy == w * h * InitialEntropyPerCase
      decreases |Unresolved(b.grid)|
    {
      if started {
        NonzeroTotalHasUnresolved(b.grid, w, h, catalog);
      }
      ghost var before: seq<seq<Case>> := b.grid;
      var x, y, ok := Step(b);
      if !ok {
        SameResolutionSameCandidates(before, b.grid, w, h, catalog, x, y);
        UnresolvedCountSameFlags(before, b.grid, w, h);
        outcome := Contradiction(x, y);
        return;
      }
      steps := steps + 1;
      started := true;
    }
    if !started {
      assert w == 0 || h == 0;
    }
    outcome := Finished;
    forall y, x | InBounds(w, h, x, y) && !b.grid[y][x].defined
      ensures CandidatesAt(b.grid, w, h, catalog, x, y) == []
    {
      ZeroTotalNoCandidates(b.grid, w, h, catalog, x, y);
    }
  }
}
