# Island generation: a verified model of the tile solver

The program generates an island map in the "wave-function collapse" style.
It places square tiles on a `w` by `h` board, one at a time. Each tile has
four edge codes, for north, east, south and west. A tile may sit next to a
resolved neighbour only when its own edge code, read backwards, equals the
neighbour's code on the facing side.

The program builds its tile catalog from a description file. Each entry gives
a base tile and a list of variants, such as `rotation-1`. Each rotation
variant is the base tile turned by a number of quarter turns.

Every board position (a `Case`) caches its *entropy*: the number of catalog
tiles that still fit around it. The main loop works as follows:

- While the board total `totalEntropy` is not 0, refresh every entropy.
- Rank the unresolved cases by entropy.
- Pick one of the cases tied at the lowest entropy.
- Resolve that case to one of its candidate tiles, then refresh again.

The Dafny modules follow that structure:

- `Tiles` holds edge codes, the reversal of a code, the fit test and the
  rotation of a tile's codes.
- `Variants` splits a variant text on `-` and parses the number of turns.
- `Catalog` holds `Tile.fromFolder` without the file and image reading. It has
  specification functions, and the outer and inner loops as two methods proved
  equal to them.
- `Grid` treats the board as a value, a list of rows. It defines the
  boundary-aware lookup, the candidates and entropy of a case, the board
  total and the list of unresolved cases. It also holds the lemmas about these,
  and the proof that placing candidates never makes two adjacent tiles clash.
- `Ranking` is the stable sort by key, as an insertion sort. It proves that the
  resulting order is the unique order by key, then row, then column.
- `Boards` has the class `Board`. Its `grid` field is reassigned cell by cell
  the way the original methods mutate their `Case` objects. Its methods are
  `getPossibleTile`, `define`, `update`, `getCaseByEntropy` and
  `getCaseByCenterDist`.
- `Collapse` holds one pass of the main loop and the loop itself.
- `Example` is a worked run on a 2 by 2 board with five tiles. The loop
  resolves two opposite corners and then stops with the other two unresolved.

Randomness (`random.choice`, `random.choices`) is a free choice among the
allowed values (`:|`). Every contract holds whichever value is chosen.

The model keeps these behaviours of the program, and gives one crash an
explicit outcome:

- A variant whose kind is not `rotation` is silently skipped, not reported as
  an error.
- The loop stops as soon as the refreshed total is 0. That can happen while
  unresolved cases remain whose candidate lists are empty
  (`Example.GuardStopsEarly`, on a square board the program can build). A zero total does not mean "all resolved".
- The board total starts at `w * h * 16`, whatever the catalog size.
- The distance used by `getCaseByCenterDist` is measured from position (0, 0),
  not from the centre of the board.
- Resolving a case with no candidate makes the original program fail inside
  `random.choices`. The model returns `None` from `Define` instead, and the
  loop returns `Contradiction(x, y)`.

## Model

| member | source | states |
|---|---|---|
| Tiles.Reverse | main.py:92 | the reversed code has the same length and holds character `|s|-1-k` at position `k` |
| Tiles.ReverseInvolution | main.py:92 | reversing a code twice gives it back |
| Tiles.Opposite | main.py:91 | the opposite direction `(i+2) mod 4` is a different direction, and taking the opposite twice gives back `i` |
| Tiles.Fits | main.py:88-93 | definition of the edge test: the neighbour's facing code equals the tile's own code reversed; characterised by `Tiles.FitsSymmetric` |
| Tiles.FitsSymmetric | main.py:88-93 | `t` fits `n` in direction `i` exactly when `n` fits `t` in the opposite direction; equivalently, `t`'s code is the reverse of `n`'s facing code |
| Tiles.Rotate | main.py:46 | the rotated code list has four codes; `Tiles.RotateAt` and `Tiles.RotateMoves` state where each code goes |
| Tiles.RotateTile | main.py:46-47 | a rotation variant has exactly four edge codes |
| Tiles.RotateAt | main.py:46 | side `i` of a tile turned by `k` holds the code of side `(i-k) mod 4` |
| Tiles.RotateMoves | main.py:46 | the code on side `i` moves to side `(i+k) mod 4` |
| Tiles.RotateCompose | main.py:46 | turning by `a` then by `b` is turning by `a+b` |
| Tiles.RotatePeriodic | main.py:46 | only the number of turns modulo 4 matters |
| Tiles.RotateFullTurn | main.py:46 | turning by 4, or four times by 1, gives back the original four codes |
| Tiles.RotateOnePermutes | main.py:46 | one quarter turn keeps the multiset of codes |
| Tiles.RotateTurnsPermute | main.py:46 | any number of quarter turns keeps the multiset of codes |
| Tiles.RotatePermutes | main.py:46 | any rotation keeps the multiset of codes |
| Tiles.RotationKeepsFit | main.py:46 | turning two tiles together keeps them compatible, in the turned direction, both ways |
| Variants.Split | main.py:43 | `split("-")` yields at least one piece and no piece holds the separator |
| Variants.Join | main.py:43 | not a step of the program: the inverse of `split("-")` through which `Variants.JoinSplit` and `Variants.SplitJoin` pin down `Variants.Split`; its own contract only bounds the joined length |
| Variants.JoinSplit | main.py:43 | joining the pieces of a split gives back the text |
| Variants.SplitAfterPiece | main.py:43 | splitting a text that starts with a piece without separators extends the first piece |
| Variants.SplitJoin | main.py:43 | splitting the join of separator-free pieces gives back the pieces |
| Variants.ParseDigits | main.py:46 | `int(opt[0])` succeeds exactly on non-empty strings of decimal digits |
| Variants.ShowNat | main.py:46 | the decimal form of a number is a non-empty digit string |
| Variants.ParseShow | main.py:46 | parsing the decimal form of `k` gives back `k` |
| Variants.Kind | main.py:43 | definition of a variant's kind, its text before the first `-`; characterised by `Variants.Split`, `Variants.JoinSplit` and `Variants.VariantOf` |
| Variants.VariantOf | main.py:43-49 | a variant of another kind adds nothing; a rotation variant either fails or adds the base tile turned by some `k` |
| Variants.RotationSpecYieldsRotation | main.py:43-49 | `"rotation-k"` adds exactly the base tile turned by `k` |
| Catalog.BaseTile | main.py:34-37 | definition of the base tile of an entry; `Catalog.ExpandShape` and `Catalog.ExpandInOrder` state that it comes first |
| Catalog.VariantTiles | main.py:40-49 | definition of the variant loop as a function; characterised by `Catalog.VariantTilesShape`, `Catalog.VariantTilesInOrder` and `Catalog.VariantTilesStop` |
| Catalog.Expand | main.py:37-49 | definition of one entry's expansion; characterised by `Catalog.ExpandShape` and `Catalog.ExpandInOrder` |
| Catalog.CatalogOf | main.py:33-49 | definition of the whole catalog; characterised by `Catalog.CatalogAppend`, `Catalog.CatalogOfOne`, `Catalog.CatalogSize` and `Catalog.CatalogStop` |
| Catalog.VariantTilesShape | main.py:40-49 | a tile's variants number one per rotation specification, and each is the base tile turned by some number of quarter turns (which one, and in what order, is `Catalog.VariantTilesInOrder`) |
| Catalog.RotationSpecs | main.py:43-46 | the texts `rotation-k`, one per number `k` |
| Catalog.RotatedCopies | main.py:46-47 | the base tile turned by each number, one copy per number |
| Catalog.VariantTilesInOrder | main.py:40-49 | the specifications `rotation-k1 .. rotation-kn` add exactly the base tile turned by `k1`, then by `k2`, up to `kn`, in declaration order |
| Catalog.ExpandShape | main.py:37-49 | a catalog entry expands to its base tile followed by one rotated copy per rotation specification |
| Catalog.ExpandInOrder | main.py:37-49 | an entry with specifications `rotation-k1 .. rotation-kn` expands to exactly its base tile followed by the base tile turned by `k1`, then `k2`, up to `kn` |
| Catalog.CatalogAppend | main.py:33-49 | the catalog of two descriptions in a row is the first catalog followed by the second, and the first error wins |
| Catalog.CatalogOfOne | main.py:33-49 | the catalog of one description is its expansion |
| Catalog.CatalogSize | main.py:33-49 | catalog size is the number of base tiles plus the number of rotation specifications |
| Catalog.VariantTilesStop | main.py:40-49 | once a variant fails, the variants after it are not looked at |
| Catalog.CatalogStop | main.py:33-49 | once a catalog entry fails, the entries after it are not looked at |
| Catalog.FromFolder | main.py:25-50 | the outer loop builds exactly the specified catalog, each base tile followed by its variants, or stops at its first error |
| Catalog.AddVariants | main.py:40-49 | the inner loop yields exactly the specified variants of one tile, in order, or stops at the first failing one |
| Grid.NewCase | main.py:57-68 | definition of a fresh case: unresolved, no tile, entropy the catalog size; `Grid.InitialGrid` states the board built from them |
| Grid.InitialGrid | main.py:118 | the board starts well formed, with every case unresolved at its own position |
| Grid.Sentinel | main.py:131-134 | definition of the case made for an off-board position: resolved, holding catalog tile 0; `Grid.Lookup` states where it is returned |
| Grid.Lookup | main.py:121-136 | lookup is total; on the board it returns the stored case, off it a resolved case holding catalog tile 0 |
| Grid.LookupAsWritten | main.py:121-136 | definition of `__getitem__` as written, with `x` compared to the height and `y` to the width; characterised by `Grid.LookupAsWrittenOnSquare` and `Grid.SwappedBoundsMisread` |
| Grid.LookupAsWrittenOnSquare | main.py:125-136 | on square boards the lookup as written agrees with `Grid.Lookup` for every neighbour position |
| Grid.SwappedBoundsMisread | main.py:128-129 | on a 3 by 2 board the lookup as written hides stored case (2, 0); on a 2 by 3 board it reads past the end of row 0 |
| Grid.NeighbourTiles | main.py:78-83 | the four neighbours' tiles, north, east, south, west, each with four codes when present |
| Grid.Admits | main.py:86-95 | definition of the per-tile test: the tile fits every neighbour holding a tile; `Grid.CandidatesMembers` states that the candidates are exactly the admitted catalog tiles |
| Grid.Candidates | main.py:85-96 | there are at most as many candidates as catalog tiles |
| Grid.CandidatesMembers | main.py:85-96 | a tile is a candidate exactly when it is in the catalog and fits every neighbour holding a tile |
| Grid.CandidatesAppend | main.py:85-96 | filtering preserves catalog order |
| Grid.CandidatesCount | main.py:85-96 | duplicates are kept: an admitted tile occurs as often as in the catalog, a rejected one not at all |
| Grid.CandidatesUnconstrained | main.py:88 | with no resolved neighbour every catalog tile is a candidate |
| Grid.CandidatesAt | main.py:70-98 | a resolved case has no candidates; an unresolved one has the catalog tiles its four neighbours admit; either way they come from the catalog and are at most as many |
| Grid.CellEntropy | main.py:97 | a case's entropy is a count between 0 and the catalog size |
| Grid.SameResolutionSameCandidates | main.py:76-98 | candidates depend only on which cases are resolved and their tiles, never on cached entropies |
| Grid.RefreshedIsFresh | main.py:160-167 | recomputing every entropy leaves every cached entropy correct and changes no tile |
| Grid.FreshResolvedIsZero | main.py:72-74 | a resolved case has entropy 0 on a refreshed board |
| Grid.GridSum | main.py:162-167 | definition of the board total, the sum of all entropies row after row; `Boards.Board.Update` states that the update stores it, `Grid.GridSumNonzero` and `Grid.ZeroTotalZeroEntropies` what it says about the entropies |
| Grid.Unresolved | main.py:175-178 | definition of the unresolved list, row after row; characterised by `Grid.UnresolvedMembers` |
| Grid.UnresolvedRowMembers | main.py:176-178 | a row's unresolved list holds exactly the unresolved cases of that row |
| Grid.UnresolvedRow | main.py:176-178 | a row's unresolved list is no longer than the row |
| Grid.UnresolvedMembers | main.py:175-178 | the unresolved list holds exactly the unresolved cases of the board, each at its own position |
| Grid.UnresolvedAt | main.py:175-178 | every listed case is stored at its own in-bounds position |
| Grid.UnresolvedListed | main.py:175-178 | every unresolved case on the board is listed |
| Grid.SameResolutionAfterStore | main.py:104-105 | changing one case keeps every other case's resolution |
| Grid.SameResolutionChain | main.py:200-210 | agreement on resolution carries through consecutive changes |
| Grid.StoreKeepsWellFormed | main.py:138-142 | storing a consistent case keeps the board well formed and changes no other position |
| Grid.NeighbourToward | main.py:78-83 | neighbour `d` of a case is the case one step away in direction `d`, and the opposite direction leads back |
| Grid.ConsistentAdjacentFit | main.py:85-96 | on a board without clashes two adjacent resolved cases fit each other across their shared edge |
| Grid.ConsistentBorderFit | main.py:125-134 | on a board without clashes a resolved border case fits tile 0 on its outer side |
| Grid.InitialConsistent | main.py:118 | a fresh board has no clashing tiles |
| Grid.SameResolutionConsistent | main.py:160-167 | recomputing entropies cannot create a clash: clashes depend only on the tiles placed |
| Grid.PlaceFitsNeighbour | main.py:85-96 | a candidate placed next to a resolved case fits it from that case's side too |
| Grid.PlaceKeepsConsistent | main.py:100-105 | storing one of a case's candidates there, or leaving it unresolved, keeps the board without clashes |
| Grid.PlaceKeepsNeighbourFit | main.py:100-105 | after such a store every other resolved case still fits all its neighbours |
| Grid.FreshZeroEntropyStore | main.py:97 | on a refreshed board, setting the entropy of a case with no candidate to 0 changes nothing |
| Grid.RefreshedBeforeOk | main.py:163-166 | partway through a refresh the board is well formed, resolves the same cases, and the next case's candidates are as before the refresh |
| Grid.RefreshedBeforeStep | main.py:163-166 | refreshing one case moves the refreshed region one case on |
| Grid.RefreshedBeforeNextRow | main.py:163-164 | a refreshed row end is the start of the next row |
| Grid.RefreshedBeforeEnd | main.py:163-167 | a refresh that reached the end has refreshed the whole board |
| Grid.PartialSumStep | main.py:166 | the running total grows by the entropy of the case just visited |
| Grid.PartialSumRowEnd | main.py:163-166 | at a row end the running total is the sum over the rows so far |
| Grid.PartialUnresolvedStep | main.py:177-178 | visiting a case appends it to the list exactly when it is unresolved |
| Grid.PartialUnresolvedRowEnd | main.py:175-178 | at a row end the list is that of the rows so far |
| Grid.RowSumNonzero | main.py:166 | a nonzero row total comes from some nonzero entropy |
| Grid.GridSumNonzero | main.py:163-167 | a nonzero board total comes from some nonzero entropy |
| Grid.NonzeroTotalHasUnresolved | main.py:200 | on a refreshed board a nonzero total means some case is unresolved, so the loop body always has a case to pick |
| Grid.AllResolvedTotalZero | main.py:200 | on a refreshed board with every case resolved the total is 0 |
| Grid.ZeroTotalZeroEntropies | main.py:163-167 | with no negative entropy, a zero total means every entropy is 0 |
| Grid.ZeroTotalNoCandidates | main.py:200 | on a refreshed board with total 0 no case has a candidate left |
| Grid.RowSumNonNegative | main.py:166 | entropies that are not negative sum to a total that is not negative |
| Grid.RowSumZero | main.py:166 | a zero total of entropies that are not negative means each is 0 |
| Grid.GridSumNonNegative | main.py:163-167 | the board total of entropies that are not negative is not negative |
| Grid.UnresolvedRowSameFlags | main.py:177 | the number of unresolved cases in a row depends only on the `defined` flags |
| Grid.UnresolvedRowResolveOne | main.py:105 | resolving one case of a row lowers its unresolved count by one |
| Grid.UnresolvedCountSameFlags | main.py:175-178 | the number of unresolved cases depends only on the `defined` flags |
| Grid.UnresolvedCountResolveOne | main.py:104-105 | resolving one case and nothing else lowers the unresolved count by exactly one |
| Grid.UnresolvedRowAll | main.py:118 | a row with no resolved case is unresolved throughout |
| Grid.UnresolvedCountAll | main.py:118 | a fresh board has `w * h` unresolved cases |
| Ranking.EntropyKey | main.py:180 | definition of the key of `getCaseByEntropy`, the cached entropy; `Boards.Board.GetCaseByEntropy` states the order it gives |
| Ranking.CenterKey | main.py:194 | definition of the key of `getCaseByCenterDist`, `x² + y²` in place of its square root; `Boards.Board.GetCaseByCenterDist` states the order it gives |
| Ranking.SortByKey | main.py:180 | the sorted list is a permutation of its input, ordered by key with ties in reading order, as a stable sort of a list in reading order leaves them |
| Ranking.InsertionPoint | main.py:180 | the insertion point comes after every case whose key is not larger than the new one and before the first case with a larger key |
| Ranking.InsertKeepsRanking | main.py:180 | inserting a later case after every case with a key that is not larger keeps the order by key, then reading order |
| Ranking.PlacedComeBefore | main.py:176-180 | the cases already placed all come before the next one in reading order |
| Ranking.InsertAddsCase | main.py:180 | an insertion adds exactly the inserted case to the multiset |
| Ranking.AppendInOrder | main.py:175-178 | appending a case that comes after every listed one keeps the list in reading order |
| Ranking.RankedBeforeAsymmetric | main.py:180 | no two cases precede each other |
| Ranking.RankingUnique | main.py:180 | two rankings of the same cases are the same list, so the sort result is determined |
| Ranking.RankedSameFirst | main.py:180 | two rankings of the same cases start with the same case |
| Ranking.RankedTail | main.py:180 | the tail of a ranking is a ranking |
| Ranking.MultisetTail | main.py:180 | two lists with the same cases and the same first case have tails with the same cases |
| Ranking.RankedFirstIsLeast | main.py:205 | the first ranked case has the smallest key |
| Boards.Board.constructor | main.py:110-119 | a `w` by `h` board of unresolved cases, with total `w * h * 16` |
| Boards.Board.SetItem | main.py:138-142 | `board[x, y] = value` replaces that one case and nothing else |
| Boards.Board.PossibleTiles | main.py:70-98 | returns the candidates of the case and sets its entropy to their number, changing nothing else |
| Boards.Board.Filter | main.py:85-96 | the loop over the catalog returns exactly the admitted tiles in catalog order |
| Boards.Board.Define | main.py:100-106 | with candidates, the case is resolved to one of them and nothing else changes; with none, the case stays unresolved with entropy 0 and the failure is reported; a board without clashing tiles stays so |
| Boards.Board.Update | main.py:160-167 | every entropy is recomputed, nothing else changes, the total is the sum of all entropies, and a board without clashing tiles stays so |
| Boards.Board.CollectUnresolved | main.py:171-178 | the list is exactly the unresolved cases, in reading order |
| Boards.Board.GetCaseByEntropy | main.py:169-181 | refreshes the board and returns exactly the unresolved cases, ranked by entropy with ties in reading order |
| Boards.Board.GetCaseByCenterDist | main.py:183-195 | refreshes the board and returns exactly the unresolved cases, ranked by `x² + y²` with ties in reading order |
| Collapse.TiedAt | main.py:205 | the filtered list holds exactly the cases with the given entropy |
| Collapse.TiedIsLeast | main.py:201-207 | a case tied with the first of the ranking is unresolved and has the fewest candidates of all unresolved cases |
| Collapse.Choose | main.py:201-207 | the chosen case is unresolved, in bounds and of minimum entropy; the board is refreshed, its total is the sum of the new entropies, and a board without clashing tiles stays so |
| Collapse.Resolve | main.py:208-210 | the case is resolved to one of its candidates exactly when it has one; no other case changes; on success the unresolved count drops by one and the board is refreshed; on failure a refreshed board and its total are left as they were; a board without clashing tiles stays so |
| Collapse.Step | main.py:200-210 | one pass: a minimum-entropy unresolved case is resolved to one of its candidates, or the pass fails exactly when it has none; no other case changes; the unresolved count drops by one on success; the board ends refreshed with its total the sum of entropies; a board without clashing tiles stays so |
| Collapse.Generate | main.py:198-210 | at most `w * h` passes; every resolved tile fits each resolved neighbour and tile 0 beyond the border; a finished run has total 0 and no unresolved case with a candidate; a failed run names an unresolved case with no candidate |
| Example.Catalog | main.py:53 | the five-tile example catalog is usable by a board and has `Edge` as tile 0 |
| Example.SquareFits | main.py:88-93 | with one-character codes, a tile fits a neighbour exactly when their facing codes are equal |
| Example.ExampleCandidates | main.py:85-96 | over the example catalog the candidates are the admitted tiles in catalog order |
| Example.Neighbours | main.py:78-83 | on a 2 by 2 board each case sees `Edge` on its two off-board sides and the tiles of its two adjacent cases |
| Example.TopLeftAlone | main.py:85-96 | with `Edge` to the north and west and no other tile, the only candidate is `TopLeft` |
| Example.TopRightAlone | main.py:85-96 | with `Edge` to the north and east and no other tile, the only candidate is `TopRight` |
| Example.BottomLeftAlone | main.py:85-96 | with `Edge` to the south and west and no other tile, the only candidate is `BottomLeft` |
| Example.BottomRightAlone | main.py:85-96 | with `Edge` to the east and south and no other tile, the only candidate is `BottomRight` |
| Example.TopRightBesideTopLeft | main.py:85-96 | with `TopLeft` to the west as well, the only candidate is still `TopRight` |
| Example.BottomLeftBelowTopLeft | main.py:85-96 | with `TopLeft` to the north as well, the only candidate is still `BottomLeft` |
| Example.TopRightBlocked | main.py:85-96 | with `TopLeft` to the west and `BottomRight` to the south, the north-east corner has no candidate |
| Example.BottomLeftBlocked | main.py:85-96 | with `TopLeft` to the north and `BottomRight` to the east, the south-west corner has no candidate |
| Example.SumOfFour | main.py:162-167 | the total of a 2 by 2 board is the sum of its four entropies |
| Example.RefreshedFour | main.py:163-166 | a 2 by 2 board refreshed case by case is refreshed |
| Example.OpenCandidates | main.py:70-98 | with nothing resolved each corner has exactly its own corner tile as candidate |
| Example.FirstCandidates | main.py:70-98 | once `TopLeft` holds (0, 0), the other three corners still have exactly one candidate each |
| Example.SecondCandidates | main.py:70-98 | once `TopLeft` holds (0, 0) and `BottomRight` holds (1, 1), no case has a candidate |
| Example.FirstChoice | main.py:201-207 | the first ranking refreshes the fresh board to one candidate per case, so all four cases are tied and (0, 0) may be picked |
| Example.FirstDefine | main.py:100-106 | `define` at (0, 0) has the single candidate `TopLeft` and stores it there |
| Example.FirstUpdate | main.py:160-167 | the following update leaves three open cases with one candidate each, total 3, so the loop goes on |
| Example.SecondDefine | main.py:201-208 | in the second pass the open cases are tied, (1, 1) may be picked, and `define` stores its single candidate `BottomRight` |
| Example.SecondUpdate | main.py:160-167 | the following update drops every entropy to 0 |
| Example.GuardStopsEarly | main.py:200-210 | the total is then 0 while (1, 0) and (0, 1) are unresolved, so the loop ends with the board unfinished, although no two placed tiles clash |

## Left out

- Reading `tiles.json` and opening images in `Tile.fromFolder` (file I/O). The
  catalog description is an input sequence of `TileSpec` values.
- All image work: `Image.open`, `Image.new`, `img.rotate`, `Tile.show` and
  `Board.show`. A tile's picture is an opaque value. A rotated picture records
  its source and the angle `-90 * k`.
- `Board.tileSize` and `Tile.size`, which only rendering uses.
- The floating point `Case.r = sqrt(x² + y²)`. Ranking by centre distance uses
  the integer key `x² + y²`, which orders the cases the same way.
- Statistical fairness of `random.choice` and `random.choices`. Both are free
  choices among the allowed values.
- The `Case.board` back-reference and the global `TILES`. The board's grid and
  catalog are passed explicitly. Aliasing through the back-reference is not
  modelled. Cases are values in the board's `grid`, and a ranked list holds
  copies of the cases taken when it was built.
- The integer-key forms `board[j]` and `board[j] = row` of
  `__getitem__`/`__setitem__`, which the program never uses.
- Boards.Board.SetItem: requires an in-bounds position and a case consistent
  with it. Python's negative indices and arbitrary values are not modelled,
  because the program never calls `__setitem__`.
- Grid.LookupAsWritten: positions below -1 are excluded. Python would wrap
  them around as negative indices, but neighbours are only ever one step off
  the board.
- Variants.ParseDigits: `int()` also accepts surrounding whitespace, a sign,
  underscores and non-ASCII digits. The model accepts only non-empty runs of
  ASCII digits and reports anything else as `BadRotationTurns`.
- Boards.Board.constructor: requires a non-empty catalog of tiles with at least
  four edge codes each. Otherwise the original program fails later, when it
  reads `TILES[0]` or `codeSides[i]`.
- Collapse.Step: requires an unresolved case. Otherwise `cases[0]` fails in the
  original program. `Collapse.Generate` shows the requirement always holds
  inside the loop.
- Collapse.Generate: the board reaches neighbours through the corrected bounds
  of `Grid.Lookup`, not the swapped comparison of `__getitem__` (see Findings).
  The two agree only on square boards, such as the `ISLAND_SIZE` by
  `ISLAND_SIZE` board built at module level. On a board whose width and height
  differ, the model gives the intended behaviour, not that of the program as
  written.

## Findings

| source | as written | input that shows it | evidently intended | confidence | as-written member | corrected member |
|---|---|---|---|---|---|---|
| main.py:128-129 | `__getitem__` compares `x` with the height and `y` with the width | a 3 by 2 board hides stored case (2, 0) behind the sentinel; on a 2 by 3 board position (2, 0) reads past the end of row 0 | compare `x` with the width and `y` with the height | high; not executed; harmless on the square boards the program builds | Grid.LookupAsWritten, Grid.SwappedBoundsMisread | Grid.Lookup, Grid.LookupAsWrittenOnSquare |
