/** A worked run of the generation loop on a 2 by 2 board, square as the
    original program builds its boards, so that the corrected lookup and the
    one written in `Board.__getitem__` agree (`Grid.LookupAsWrittenOnSquare`).
    Every edge code is one character long, so reading a code backwards leaves
    it unchanged and two tiles fit when their facing codes are equal.

    Catalog tile 0, `Edge`, stands beyond the border. Each corner starts with
    a single candidate. The run resolves (0, 0), then (1, 1), each time a case
    of lowest entropy, and is then left with a total of 0 while (1, 0) and
    (0, 1) are still unresolved: the guard `totalEntropy != 0` ends the loop
    with the board unfinished. */
module Example {
  import opened Wrappers
  import opened Tiles
  import opened Grid

  /** A tile whose four edge codes are the single characters `n`, `e`, `s`
      and `w`, north, east, south and west. */
  function Square(n: char, e: char, s: char, w: char, name: string): (t: Tile)
    ensures HasFourSides(t)
  {
    Tile([[n], [e], [s], [w]], Opened(name))
  }

  /** Catalog tile 0: codes north "a", east "b", south "c", west "d". */
  function Edge(): Tile {
    Square('a', 'b', 'c', 'd', "edge")
  }

  /** Fits the border on its north and west sides. */
  function TopLeft(): Tile {
    Square('c', 'p', 'q', 'b', "top-left")
  }

  /** Fits the border on its north and east sides, and `TopLeft` to its west. */
  function TopRight(): Tile {
    Square('c', 'd', 'u', 'p', "top-right")
  }

  /** Fits the border on its south and west sides, and `TopLeft` to its north. */
  function BottomLeft(): Tile {
    Square('q', 'z', 'a', 'b', "bottom-left")
  }

  /** Fits the border on its south and east sides, but neither `TopRight` to
      its north nor `BottomLeft` to its west. */
  function BottomRight(): Tile {
    Square('r', 'd', 'a', 's', "bottom-right")
  }

  /** The five tiles, `Edge` first so that it stands beyond the border. */
  function Catalog(): (catalog: seq<Tile>)
    ensures CatalogOk(catalog) && catalog[0] == Edge()
  {
    [Edge(), TopLeft(), TopRight(), BottomLeft(), BottomRight()]
  }

  /** Two one-character codes fit when they are equal, since reading a
      one-character code backwards leaves it unchanged. */
  lemma SquareFits(tn: char, te: char, ts: char, tw: char, tname: string, i: nat,
                   mn: char, me: char, ms: char, mw: char, mname: string)
    requires i < 4
    ensures Fits(Square(tn, te, ts, tw, tname), i, Square(mn, me, ms, mw, mname)) <==>
              if i == 0 then ms == tn else if i == 1 then mw == te else if i == 2 then mn == ts else me == tw
  {
    var t := Square(tn, te, ts, tw, tname);
    var s := t.codeSides[i];
    assert Reverse(s) == s by {
      assert |Reverse(s)| == 1 && Reverse(s)[0] == s[0];
    }
  }

  /** A neighbour whose facing code differs rules a tile out. */
  lemma Clash(tn: char, te: char, ts: char, tw: char, tname: string, n: seq<Option<Tile>>, i: nat,
              mn: char, me: char, ms: char, mw: char, mname: string)
    requires NeighboursOk(n) && i < 4 && n[i] == Some(Square(mn, me, ms, mw, mname))
    requires if i == 0 then ms != tn else if i == 1 then mw != te else if i == 2 then mn != ts else me != tw
    ensures !Admits(Square(tn, te, ts, tw, tname), n)
  {
    SquareFits(tn, te, ts, tw, tname, i, mn, me, ms, mw, mname);
  }

  /** A tile that fits each of the four neighbours holding a tile is admitted. */
  lemma AdmittedBy(t: Tile, n: seq<Option<Tile>>)
    requires HasFourSides(t) && NeighboursOk(n)
    requires n[0].Some? ==> Fits(t, 0, n[0].value)
    requires n[1].Some? ==> Fits(t, 1, n[1].value)
    requires n[2].Some? ==> Fits(t, 2, n[2].value)
    requires n[3].Some? ==> Fits(t, 3, n[3].value)
    ensures Admits(t, n)
  {
  }

  /** The candidates over this catalog are the tiles admitted, in catalog order. */
  lemma ExampleCandidates(n: seq<Option<Tile>>)
    requires NeighboursOk(n)
    ensures Candidates(Catalog(), n) ==
              (if Admits(Edge(), n) then [Edge()] else [])
              + (if Admits(TopLeft(), n) then [TopLeft()] else [])
              + (if Admits(TopRight(), n) then [TopRight()] else [])
              + (if Admits(BottomLeft(), n) then [BottomLeft()] else [])
              + (if Admits(BottomRight(), n) then [BottomRight()] else [])
  {
    var e, tl, tr, bl, br := Edge(), TopLeft(), TopRight(), BottomLeft(), BottomRight();
    var c1, c2, c3, c4 := [e], [e, tl], [e, tl, tr], [e, tl, tr, bl];
    assert c1 == [] + [e] && c2 == c1 + [tl] && c3 == c2 + [tr] && c4 == c3 + [bl];
    assert Catalog() == c4 + [br];
    CandidatesSnoc([], e, n);
    CandidatesSnoc(c1, tl, n);
    CandidatesSnoc(c2, tr, n);
    CandidatesSnoc(c3, bl, n);
    CandidatesSnoc(c4, br, n);
  }

  /** Filtering a catalog with one more tile at its end. */
  lemma CandidatesSnoc(init: seq<Tile>, t: Tile, n: seq<Option<Tile>>)
    requires AllFourSided(init) && HasFourSides(t) && NeighboursOk(n)
    ensures AllFourSided(init + [t])
    ensures Candidates(init + [t], n) == Candidates(init, n) + (if Admits(t, n) then [t] else [])
  {
    assert (init + [t])[..|init|] == init;
  }

  /** The neighbour tiles of the four cases of a 2 by 2 board: `Edge` beyond
      the border, the tile of the adjacent case inside it. */
  lemma Neighbours(g: seq<seq<Case>>)
    requires WellFormed(g, 2, 2, Catalog())
    ensures NeighbourTiles(g, 2, 2, Catalog(), 0, 0) == [Some(Edge()), g[0][1].tile, g[1][0].tile, Some(Edge())]
    ensures NeighbourTiles(g, 2, 2, Catalog(), 1, 0) == [Some(Edge()), Some(Edge()), g[1][1].tile, g[0][0].tile]
    ensures NeighbourTiles(g, 2, 2, Catalog(), 0, 1) == [g[0][0].tile, g[1][1].tile, Some(Edge()), Some(Edge())]
    ensures NeighbourTiles(g, 2, 2, Catalog(), 1, 1) == [g[0][1].tile, Some(Edge()), Some(Edge()), g[1][0].tile]
  {
  }

  /** At the start, the north-west corner takes only `TopLeft`. */
  lemma TopLeftAlone()
    ensures Candidates(Catalog(), [Some(Edge()), None, None, Some(Edge())]) == [TopLeft()]
  {
    var n := [Some(Edge()), None, None, Some(Edge())];
    TopLeftAloneRejects();
    TopLeftAloneAdmits();
    ExampleCandidates(n);
  }

  /** Around the case of `TopLeftAlone`, every other tile clashes with a neighbour. */
  lemma TopLeftAloneRejects()
    ensures var n := [Some(Edge()), None, None, Some(Edge())];
            NeighboursOk(n) && !Admits(Edge(), n) && !Admits(TopRight(), n) && !Admits(BottomLeft(), n) && !Admits(BottomRight(), n)
  {
    var n := [Some(Edge()), None, None, Some(Edge())];
    Clash('a', 'b', 'c', 'd', "edge", n, 0, 'a', 'b', 'c', 'd', "edge");
    Clash('c', 'd', 'u', 'p', "top-right", n, 3, 'a', 'b', 'c', 'd', "edge");
    Clash('q', 'z', 'a', 'b', "bottom-left", n, 0, 'a', 'b', 'c', 'd', "edge");
    Clash('r', 'd', 'a', 's', "bottom-right", n, 0, 'a', 'b', 'c', 'd', "edge");
  }

  /** Around the case of `TopLeftAlone`, its tile fits every neighbour holding a tile. */
  lemma TopLeftAloneAdmits()
    ensures var n := [Some(Edge()), None, None, Some(Edge())];
            NeighboursOk(n) && Admits(TopLeft(), n)
  {
    var n := [Some(Edge()), None, None, Some(Edge())];
    SquareFits('c', 'p', 'q', 'b', "top-left", 0, 'a', 'b', 'c', 'd', "edge");
    SquareFits('c', 'p', 'q', 'b', "top-left", 3, 'a', 'b', 'c', 'd', "edge");
    AdmittedBy(TopLeft(), n);
  }

  /** At the start, the north-east corner takes only `TopRight`. */
  lemma TopRightAlone()
    ensures Candidates(Catalog(), [Some(Edge()), Some(Edge()), None, None]) == [TopRight()]
  {
    var n := [Some(Edge()), Some(Edge()), None, None];
    TopRightAloneRejects();
    TopRightAloneAdmits();
    ExampleCandidates(n);
  }

  /** Around the case of `TopRightAlone`, every other tile clashes with a neighbour. */
  lemma TopRightAloneRejects()
    ensures var n := [Some(Edge()), Some(Edge()), None, None];
            NeighboursOk(n) && !Admits(Edge(), n) && !Admits(TopLeft(), n) && !Admits(BottomLeft(), n) && !Admits(BottomRight(), n)
  {
    var n := [Some(Edge()), Some(Edge()), None, None];
    Clash('a', 'b', 'c', 'd', "edge", n, 0, 'a', 'b', 'c', 'd', "edge");
    Clash('c', 'p', 'q', 'b', "top-left", n, 1, 'a', 'b', 'c', 'd', "edge");
    Clash('q', 'z', 'a', 'b', "bottom-left", n, 0, 'a', 'b', 'c', 'd', "edge");
    Clash('r', 'd', 'a', 's', "bottom-right", n, 0, 'a', 'b', 'c', 'd', "edge");
  }

  /** Around the case of `TopRightAlone`, its tile fits every neighbour holding a tile. */
  lemma TopRightAloneAdmits()
    ensures var n := [Some(Edge()), Some(Edge()), None, None];
            NeighboursOk(n) && Admits(TopRight(), n)
  {
    var n := [Some(Edge()), Some(Edge()), None, None];
    SquareFits('c', 'd', 'u', 'p', "top-right", 0, 'a', 'b', 'c', 'd', "edge");
    SquareFits('c', 'd', 'u', 'p', "top-right", 1, 'a', 'b', 'c', 'd', "edge");
    AdmittedBy(TopRight(), n);
  }

  /** At the start, the south-west corner takes only `BottomLeft`. */
  lemma BottomLeftAlone()
    ensures Candidates(Catalog(), [None, None, Some(Edge()), Some(Edge())]) == [BottomLeft()]
  {
    var n := [None, None, Some(Edge()), Some(Edge())];
    BottomLeftAloneRejects();
    BottomLeftAloneAdmits();
    ExampleCandidates(n);
  }

  /** Around the case of `BottomLeftAlone`, every other tile clashes with a neighbour. */
  lemma BottomLeftAloneRejects()
    ensures var n := [None, None, Some(Edge()), Some(Edge())];
            NeighboursOk(n) && !Admits(Edge(), n) && !Admits(TopLeft(), n) && !Admits(TopRight(), n) && !Admits(BottomRight(), n)
  {
    var n := [None, None, Some(Edge()), Some(Edge())];
    Clash('a', 'b', 'c', 'd', "edge", n, 2, 'a', 'b', 'c', 'd', "edge");
    Clash('c', 'p', 'q', 'b', "top-left", n, 2, 'a', 'b', 'c', 'd', "edge");
    Clash('c', 'd', 'u', 'p', "top-right", n, 2, 'a', 'b', 'c', 'd', "edge");
    Clash('r', 'd', 'a', 's', "bottom-right", n, 3, 'a', 'b', 'c', 'd', "edge");
  }

  /** Around the case of `BottomLeftAlone`, its tile fits every neighbour holding a tile. */
  lemma BottomLeftAloneAdmits()
    ensures var n := [None, None, Some(Edge()), Some(Edge())];
            NeighboursOk(n) && Admits(BottomLeft(), n)
  {
    var n := [None, None, Some(Edge()), Some(Edge())];
    SquareFits('q', 'z', 'a', 'b', "bottom-left", 2, 'a', 'b', 'c', 'd', "edge");
    SquareFits('q', 'z', 'a', 'b', "bottom-left", 3, 'a', 'b', 'c', 'd', "edge");
    AdmittedBy(BottomLeft(), n);
  }

  /** Until its own resolution, the south-east corner takes only `BottomRight`. */
  lemma BottomRightAlone()
    ensures Candidates(Catalog(), [None, Some(Edge()), Some(Edge()), None]) == [BottomRight()]
  {
    var n := [None, Some(Edge()), Some(Edge()), None];
    BottomRightAloneRejects();
    BottomRightAloneAdmits();
    ExampleCandidates(n);
  }

  /** Around the case of `BottomRightAlone`, every other tile clashes with a neighbour. */
  lemma BottomRightAloneRejects()
    ensures var n := [None, Some(Edge()), Some(Edge()), None];
            NeighboursOk(n) && !Admits(Edge(), n) && !Admits(TopLeft(), n) && !Admits(TopRight(), n) && !Admits(BottomLeft(), n)
  {
    var n := [None, Some(Edge()), Some(Edge()), None];
    Clash('a', 'b', 'c', 'd', "edge", n, 1, 'a', 'b', 'c', 'd', "edge");
    Clash('c', 'p', 'q', 'b', "top-left", n, 1, 'a', 'b', 'c', 'd', "edge");
    Clash('c', 'd', 'u', 'p', "top-right", n, 2, 'a', 'b', 'c', 'd', "edge");
    Clash('q', 'z', 'a', 'b', "bottom-left", n, 1, 'a', 'b', 'c', 'd', "edge");
  }

  /** Around the case of `BottomRightAlone`, its tile fits every neighbour holding a tile. */
  lemma BottomRightAloneAdmits()
    ensures var n := [None, Some(Edge()), Some(Edge()), None];
            NeighboursOk(n) && Admits(BottomRight(), n)
  {
    var n := [None, Some(Edge()), Some(Edge()), None];
    SquareFits('r', 'd', 'a', 's', "bottom-right", 1, 'a', 'b', 'c', 'd', "edge");
    SquareFits('r', 'd', 'a', 's', "bottom-right", 2, 'a', 'b', 'c', 'd', "edge");
    AdmittedBy(BottomRight(), n);
  }

  /** With `TopLeft` to its west, the north-east corner still takes `TopRight`. */
  lemma TopRightBesideTopLeft()
    ensures Candidates(Catalog(), [Some(Edge()), Some(Edge()), None, Some(TopLeft())]) == [TopRight()]
  {
    var n := [Some(Edge()), Some(Edge()), None, Some(TopLeft())];
    TopRightBesideTopLeftRejects();
    TopRightBesideTopLeftAdmits();
    ExampleCandidates(n);
  }

  /** Around the case of `TopRightBesideTopLeft`, every other tile clashes with a neighbour. */
  lemma TopRightBesideTopLeftRejects()
    ensures var n := [Some(Edge()), Some(Edge()), None, Some(TopLeft())];
            NeighboursOk(n) && !Admits(Edge(), n) && !Admits(TopLeft(), n) && !Admits(BottomLeft(), n) && !Admits(BottomRight(), n)
  {
    var n := [Some(Edge()), Some(Edge()), None, Some(TopLeft())];
    Clash('a', 'b', 'c', 'd', "edge", n, 0, 'a', 'b', 'c', 'd', "edge");
    Clash('c', 'p', 'q', 'b', "top-left", n, 1, 'a', 'b', 'c', 'd', "edge");
    Clash('q', 'z', 'a', 'b', "bottom-left", n, 0, 'a', 'b', 'c', 'd', "edge");
    Clash('r', 'd', 'a', 's', "bottom-right", n, 0, 'a', 'b', 'c', 'd', "edge");
  }

  /** Around the case of `TopRightBesideTopLeft`, its tile fits every neighbour holding a tile. */
  lemma TopRightBesideTopLeftAdmits()
    ensures var n := [Some(Edge()), Some(Edge()), None, Some(TopLeft())];
            NeighboursOk(n) && Admits(TopRight(), n)
  {
    var n := [Some(Edge()), Some(Edge()), None, Some(TopLeft())];
    SquareFits('c', 'd', 'u', 'p', "top-right", 0, 'a', 'b', 'c', 'd', "edge");
    SquareFits('c', 'd', 'u', 'p', "top-right", 1, 'a', 'b', 'c', 'd', "edge");
    SquareFits('c', 'd', 'u', 'p', "top-right", 3, 'c', 'p', 'q', 'b', "top-left");
    AdmittedBy(TopRight(), n);
  }

  /** With `TopLeft` to its north, the south-west corner still takes `BottomLeft`. */
  lemma BottomLeftBelowTopLeft()
    ensures Candidates(Catalog(), [Some(TopLeft()), None, Some(Edge()), Some(Edge())]) == [BottomLeft()]
  {
    var n := [Some(TopLeft()), None, Some(Edge()), Some(Edge())];
    BottomLeftBelowTopLeftRejects();
    BottomLeftBelowTopLeftAdmits();
    ExampleCandidates(n);
  }

  /** Around the case of `BottomLeftBelowTopLeft`, every other tile clashes with a neighbour. */
  lemma BottomLeftBelowTopLeftRejects()
    ensures var n := [Some(TopLeft()), None, Some(Edge()), Some(Edge())];
            NeighboursOk(n) && !Admits(Edge(), n) && !Admits(TopLeft(), n) && !Admits(TopRight(), n) && !Admits(BottomRight(), n)
  {
    var n := [Some(TopLeft()), None, Some(Edge()), Some(Edge())];
    Clash('a', 'b', 'c', 'd', "edge", n, 2, 'a', 'b', 'c', 'd', "edge");
    Clash('c', 'p', 'q', 'b', "top-left", n, 2, 'a', 'b', 'c', 'd', "edge");
    Clash('c', 'd', 'u', 'p', "top-right", n, 2, 'a', 'b', 'c', 'd', "edge");
    Clash('r', 'd', 'a', 's', "bottom-right", n, 3, 'a', 'b', 'c', 'd', "edge");
  }

  /** Around the case of `BottomLeftBelowTopLeft`, its tile fits every neighbour holding a tile. */
  lemma BottomLeftBelowTopLeftAdmits()
    ensures var n := [Some(TopLeft()), None, Some(Edge()), Some(Edge())];
            NeighboursOk(n) && Admits(BottomLeft(), n)
  {
    var n := [Some(TopLeft()), None, Some(Edge()), Some(Edge())];
    SquareFits('q', 'z', 'a', 'b', "bottom-left", 0, 'c', 'p', 'q', 'b', "top-left");
    SquareFits('q', 'z', 'a', 'b', "bottom-left", 2, 'a', 'b', 'c', 'd', "edge");
    SquareFits('q', 'z', 'a', 'b', "bottom-left", 3, 'a', 'b', 'c', 'd', "edge");
    AdmittedBy(BottomLeft(), n);
  }

  /** Between `TopLeft` and `BottomRight`, the north-east corner takes no tile. */
  lemma TopRightBlocked()
    ensures Candidates(Catalog(), [Some(Edge()), Some(Edge()), Some(BottomRight()), Some(TopLeft())]) == []
  {
    var n := [Some(Edge()), Some(Edge()), Some(BottomRight()), Some(TopLeft())];
    TopRightBlockedRejects();
    ExampleCandidates(n);
  }

  /** Around the case of `TopRightBlocked`, every other tile clashes with a neighbour. */
  lemma TopRightBlockedRejects()
    ensures var n := [Some(Edge()), Some(Edge()), Some(BottomRight()), Some(TopLeft())];
            NeighboursOk(n) && !Admits(Edge(), n) && !Admits(TopLeft(), n) && !Admits(TopRight(), n) && !Admits(BottomLeft(), n) && !Admits(BottomRight(), n)
  {
    var n := [Some(Edge()), Some(Edge()), Some(BottomRight()), Some(TopLeft())];
    Clash('a', 'b', 'c', 'd', "edge", n, 0, 'a', 'b', 'c', 'd', "edge");
    Clash('c', 'p', 'q', 'b', "top-left", n, 1, 'a', 'b', 'c', 'd', "edge");
    Clash('c', 'd', 'u', 'p', "top-right", n, 2, 'r', 'd', 'a', 's', "bottom-right");
    Clash('q', 'z', 'a', 'b', "bottom-left", n, 0, 'a', 'b', 'c', 'd', "edge");
    Clash('r', 'd', 'a', 's', "bottom-right", n, 0, 'a', 'b', 'c', 'd', "edge");
  }

  /** Between `TopLeft` and `BottomRight`, the south-west corner takes no tile. */
  lemma BottomLeftBlocked()
    ensures Candidates(Catalog(), [Some(TopLeft()), Some(BottomRight()), Some(Edge()), Some(Edge())]) == []
  {
    var n := [Some(TopLeft()), Some(BottomRight()), Some(Edge()), Some(Edge())];
    BottomLeftBlockedRejects();
    ExampleCandidates(n);
  }

  /** Around the case of `BottomLeftBlocked`, every other tile clashes with a neighbour. */
  lemma BottomLeftBlockedRejects()
    ensures var n := [Some(TopLeft()), Some(BottomRight()), Some(Edge()), Some(Edge())];
            NeighboursOk(n) && !Admits(Edge(), n) && !Admits(TopLeft(), n) && !Admits(TopRight(), n) && !Admits(BottomLeft(), n) && !Admits(BottomRight(), n)
  {
    var n := [Some(TopLeft()), Some(BottomRight()), Some(Edge()), Some(Edge())];
    Clash('a', 'b', 'c', 'd', "edge", n, 2, 'a', 'b', 'c', 'd', "edge");
    Clash('c', 'p', 'q', 'b', "top-left", n, 2, 'a', 'b', 'c', 'd', "edge");
    Clash('c', 'd', 'u', 'p', "top-right", n, 2, 'a', 'b', 'c', 'd', "edge");
    Clash('q', 'z', 'a', 'b', "bottom-left", n, 1, 'r', 'd', 'a', 's', "bottom-right");
    Clash('r', 'd', 'a', 's', "bottom-right", n, 3, 'a', 'b', 'c', 'd', "edge");
  }

  /** The total of a 2 by 2 board is the sum of its four entropies. */
  lemma SumOfFour(g: seq<seq<Case>>)
    requires Shaped(g, 2, 2)
    ensures GridSum(g) == g[0][0].entropy + g[0][1].entropy + g[1][0].entropy + g[1][1].entropy
  {
    assert RowSum(g[0][..1]) == g[0][0].entropy by {
      assert g[0][..1][..0] == [];
    }
    assert RowSum(g[1][..1]) == g[1][0].entropy by {
      assert g[1][..1][..0] == [];
    }
    assert GridSum(g[..1]) == RowSum(g[0]) by {
      assert g[..1][..0] == [];
    }
  }

  /** A refresh of a 2 by 2 board, stated case by case. */
  lemma RefreshedFour(g0: seq<seq<Case>>, g: seq<seq<Case>>)
    requires WellFormed(g0, 2, 2, Catalog()) && Shaped(g, 2, 2)
    requires g[0][0] == g0[0][0].(entropy := CellEntropy(g0, 2, 2, Catalog(), 0, 0))
    requires g[0][1] == g0[0][1].(entropy := CellEntropy(g0, 2, 2, Catalog(), 1, 0))
    requires g[1][0] == g0[1][0].(entropy := CellEntropy(g0, 2, 2, Catalog(), 0, 1))
    requires g[1][1] == g0[1][1].(entropy := CellEntropy(g0, 2, 2, Catalog(), 1, 1))
    ensures Refreshed(g0, g, 2, 2, Catalog())
  {
    forall y, x | InBounds(2, 2, x, y)
      ensures g[y][x] == g0[y][x].(entropy := CellEntropy(g0, 2, 2, Catalog(), x, y))
    {
      assert (x == 0 || x == 1) && (y == 0 || y == 1);
    }
  }

  /** The candidates of a 2 by 2 board with no case resolved: one per corner. */
  lemma OpenCandidates(g: seq<seq<Case>>)
    requires WellFormed(g, 2, 2, Catalog())
    requires !g[0][0].defined && !g[0][1].defined && !g[1][0].defined && !g[1][1].defined
    ensures CandidatesAt(g, 2, 2, Catalog(), 0, 0) == [TopLeft()]
    ensures CandidatesAt(g, 2, 2, Catalog(), 1, 0) == [TopRight()]
    ensures CandidatesAt(g, 2, 2, Catalog(), 0, 1) == [BottomLeft()]
    ensures CandidatesAt(g, 2, 2, Catalog(), 1, 1) == [BottomRight()]
  {
    Neighbours(g);
    TopLeftAlone();
    TopRightAlone();
    BottomLeftAlone();
    BottomRightAlone();
  }

  /** The candidates once `TopLeft` holds (0, 0): still one per open corner. */
  lemma FirstCandidates(g: seq<seq<Case>>)
    requires WellFormed(g, 2, 2, Catalog())
    requires g[0][0].tile == Some(TopLeft())
    requires !g[0][1].defined && !g[1][0].defined && !g[1][1].defined
    ensures CandidatesAt(g, 2, 2, Catalog(), 0, 0) == []
    ensures CandidatesAt(g, 2, 2, Catalog(), 1, 0) == [TopRight()]
    ensures CandidatesAt(g, 2, 2, Catalog(), 0, 1) == [BottomLeft()]
    ensures CandidatesAt(g, 2, 2, Catalog(), 1, 1) == [BottomRight()]
  {
    Neighbours(g);
    TopRightBesideTopLeft();
    BottomLeftBelowTopLeft();
    BottomRightAlone();
  }

  /** The candidates once `TopLeft` holds (0, 0) and `BottomRight` holds
      (1, 1): none anywhere, although two cases are open. */
  lemma SecondCandidates(g: seq<seq<Case>>)
    requires WellFormed(g, 2, 2, Catalog())
    requires g[0][0].tile == Some(TopLeft()) && g[1][1].tile == Some(BottomRight())
    requires !g[0][1].defined && !g[1][0].defined
    ensures CandidatesAt(g, 2, 2, Catalog(), 0, 0) == []
    ensures CandidatesAt(g, 2, 2, Catalog(), 1, 0) == []
    ensures CandidatesAt(g, 2, 2, Catalog(), 0, 1) == []
    ensures CandidatesAt(g, 2, 2, Catalog(), 1, 1) == []
  {
    Neighbours(g);
    TopRightBlocked();
    BottomLeftBlocked();
  }

  /** The board as built: every case open, entropy 5. */
  function Start(): (g: seq<seq<Case>>)
    ensures WellFormed(g, 2, 2, Catalog())
  {
    InitialGrid(2, 2, Catalog())
  }

  /** `Start` after the first update: one candidate per case. */
  function Ready(): (g: seq<seq<Case>>)
    ensures WellFormed(g, 2, 2, Catalog())
  {
    [[Case(0, 0, false, None, 1), Case(1, 0, false, None, 1)],
     [Case(0, 1, false, None, 1), Case(1, 1, false, None, 1)]]
  }

  /** `Ready` with (0, 0) resolved to `TopLeft`. */
  function FirstPlaced(): (g: seq<seq<Case>>)
    ensures WellFormed(g, 2, 2, Catalog())
  {
    [[Case(0, 0, true, Some(TopLeft()), 1), Case(1, 0, false, None, 1)],
     [Case(0, 1, false, None, 1), Case(1, 1, false, None, 1)]]
  }

  /** `FirstPlaced` after its update. */
  function FirstUpdated(): (g: seq<seq<Case>>)
    ensures WellFormed(g, 2, 2, Catalog())
  {
    [[Case(0, 0, true, Some(TopLeft()), 0), Case(1, 0, false, None, 1)],
     [Case(0, 1, false, None, 1), Case(1, 1, false, None, 1)]]
  }

  /** `FirstUpdated` with (1, 1) resolved to `BottomRight`. */
  function SecondPlaced(): (g: seq<seq<Case>>)
    ensures WellFormed(g, 2, 2, Catalog())
  {
    [[Case(0, 0, true, Some(TopLeft()), 0), Case(1, 0, false, None, 1)],
     [Case(0, 1, false, None, 1), Case(1, 1, true, Some(BottomRight()), 1)]]
  }

  /** `SecondPlaced` after its update: every entropy is 0. */
  function Stuck(): (g: seq<seq<Case>>)
    ensures WellFormed(g, 2, 2, Catalog())
  {
    [[Case(0, 0, true, Some(TopLeft()), 0), Case(1, 0, false, None, 0)],
     [Case(0, 1, false, None, 0), Case(1, 1, true, Some(BottomRight()), 0)]]
  }

  /** First pass, ranking: the update turns `Start` into `Ready`, where every
      case has one candidate, so all four are tied and (0, 0) may be chosen. */
  lemma FirstChoice()
    ensures Refreshed(Start(), Ready(), 2, 2, Catalog())
    ensures forall j, i :: InBounds(2, 2, i, j) ==> CellEntropy(Start(), 2, 2, Catalog(), i, j) == 1
  {
    OpenCandidates(Start());
    RefreshedFour(Start(), Ready());
    forall j, i | InBounds(2, 2, i, j)
      ensures CellEntropy(Start(), 2, 2, Catalog(), i, j) == 1
    {
      assert (i == 0 || i == 1) && (j == 0 || j == 1);
    }
  }

  /** First pass, `define` at (0, 0): its only candidate is `TopLeft`, and
      storing it turns `Ready` into `FirstPlaced`. */
  lemma FirstDefine()
    ensures CandidatesAt(Ready(), 2, 2, Catalog(), 0, 0) == [TopLeft()]
    ensures FirstPlaced() == Ready()[0 := Ready()[0][0 := Case(0, 0, true, Some(TopLeft()), 1)]]
  {
    OpenCandidates(Ready());
    FirstStore();
  }

  /** Storing `TopLeft` at (0, 0) of `Ready`. */
  lemma FirstStore()
    ensures FirstPlaced() == Ready()[0 := Ready()[0][0 := Case(0, 0, true, Some(TopLeft()), 1)]]
  {
    assert Ready()[0][0 := Case(0, 0, true, Some(TopLeft()), 1)] == FirstPlaced()[0];
  }

  /** First pass, update: the three open cases keep one candidate each, so
      the total is 3, the loop goes on, and the next ranking finds the board
      already up to date. */
  lemma FirstUpdate()
    ensures Refreshed(FirstPlaced(), FirstUpdated(), 2, 2, Catalog())
    ensures Fresh(FirstUpdated(), 2, 2, Catalog())
    ensures GridSum(FirstUpdated()) == 3
  {
    FirstCandidates(FirstPlaced());
    RefreshedFour(FirstPlaced(), FirstUpdated());
    RefreshedIsFresh(FirstPlaced(), FirstUpdated(), 2, 2, Catalog());
    SumOfFour(FirstUpdated());
  }

  /** Second pass: the three open cases are tied at the lowest entropy, so
      (1, 1) may be chosen; its only candidate is `BottomRight`, and storing it
      turns `FirstUpdated` into `SecondPlaced`. */
  lemma SecondDefine()
    ensures forall j, i :: InBounds(2, 2, i, j) && !FirstUpdated()[j][i].defined ==>
              CellEntropy(FirstUpdated(), 2, 2, Catalog(), i, j) == 1
    ensures CandidatesAt(FirstUpdated(), 2, 2, Catalog(), 1, 1) == [BottomRight()]
    ensures SecondPlaced() == FirstUpdated()[1 := FirstUpdated()[1][1 := Case(1, 1, true, Some(BottomRight()), 1)]]
  {
    SecondTie();
    FirstCandidates(FirstUpdated());
    SecondStore();
  }

  /** On `FirstUpdated` every open case has one candidate. */
  lemma SecondTie()
    ensures forall j, i :: InBounds(2, 2, i, j) && !FirstUpdated()[j][i].defined ==>
              CellEntropy(FirstUpdated(), 2, 2, Catalog(), i, j) == 1
  {
    FirstCandidates(FirstUpdated());
    forall j, i | InBounds(2, 2, i, j) && !FirstUpdated()[j][i].defined
      ensures CellEntropy(FirstUpdated(), 2, 2, Catalog(), i, j) == 1
    {
      assert (i == 0 || i == 1) && (j == 0 || j == 1);
    }
  }

  /** Storing `BottomRight` at (1, 1) of `FirstUpdated`. */
  lemma SecondStore()
    ensures SecondPlaced() == FirstUpdated()[1 := FirstUpdated()[1][1 := Case(1, 1, true, Some(BottomRight()), 1)]]
  {
    assert FirstUpdated()[1][1 := Case(1, 1, true, Some(BottomRight()), 1)] == SecondPlaced()[1];
  }

  /** Second pass, update: neither open case has a candidate left, so every
      entropy drops to 0. */
  lemma SecondUpdate()
    ensures Refreshed(SecondPlaced(), Stuck(), 2, 2, Catalog())
    ensures Fresh(Stuck(), 2, 2, Catalog())
  {
    SecondCandidates(SecondPlaced());
    RefreshedFour(SecondPlaced(), Stuck());
    RefreshedIsFresh(SecondPlaced(), Stuck(), 2, 2, Catalog());
  }

  /** After the second pass the total is 0, so the guard `totalEntropy != 0`
      ends the loop with (1, 0) and (0, 1) unresolved, on a board where no two
      tiles clash. */
  lemma GuardStopsEarly()
    ensures GridSum(Stuck()) == 0
    ensures Unresolved(Stuck()) == [Case(1, 0, false, None, 0), Case(0, 1, false, None, 0)]
    ensures Consistent(Stuck(), 2, 2, Catalog())
  {
    SumOfFour(Stuck());
    StuckConsistent();
  }

  /** `TopLeft` and `BottomRight` each fit the border and face only open cases. */
  lemma StuckConsistent()
    ensures Consistent(Stuck(), 2, 2, Catalog())
  {
    Neighbours(Stuck());
    TopLeftAloneAdmits();
    BottomRightAloneAdmits();
    forall y, x | InBounds(2, 2, x, y) && Stuck()[y][x].defined
      ensures Admits(Stuck()[y][x].tile.value, NeighbourTiles(Stuck(), 2, 2, Catalog(), x, y))
    {
      assert (x == 0 && y == 0) || (x == 1 && y == 1);
    }
  }
}
