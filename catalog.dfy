/** Building the tile catalog (`Tile.fromFolder`): every base tile, each one
    immediately followed by the variants its specification declares, in
    declaration order. Reading the description file and opening the pictures
    is left to the caller: a base tile arrives as its codes, the path of its
    picture and its list of variant specifications. */
module Catalog {
  import opened Wrappers
  import opened Tiles
  import opened Variants

  /** One entry of the tile description file. */
  datatype TileSpec = TileSpec(codeSides: seq<string>, imgPath: string, variantes: seq<string>)

  function BaseTile(spec: TileSpec): Tile {
    Tile(spec.codeSides, Opened(spec.imgPath))
  }

  /** The tiles that the variant specifications `vars` add after `base`, or the
      first error among them. */
  function VariantTiles(base: Tile, vars: seq<string>): Result<seq<Tile>, CatalogError>
  {
    if vars == [] then Ok([])
    else match VariantTiles(base, vars[..|vars| - 1])
      case Err(e) => Err(e)
      case Ok(done) =>
        match VariantOf(base, vars[|vars| - 1])
        case Err(e) => Err(e)
        case Ok(None) => Ok(done)
        case Ok(Some(t)) => Ok(done + [t])
  }

  /** A base tile followed by its variants. */
  function Expand(spec: TileSpec): Result<seq<Tile>, CatalogError> {
    match VariantTiles(BaseTile(spec), spec.variantes)
    case Err(e) => Err(e)
    case Ok(vs) => Ok([BaseTile(spec)] + vs)
  }

  /** The catalog described by `specs`, or the first error in it. */
  function CatalogOf(specs: seq<TileSpec>): Result<seq<Tile>, CatalogError> {
    if specs == [] then Ok([])
    else match CatalogOf(specs[..|specs| - 1])
      case Err(e) => Err(e)
      case Ok(done) =>
        match Expand(specs[|specs| - 1])
        case Err(e) => Err(e)
        case Ok(more) => Ok(done + more)
  }

  /** How many of the variant specifications are rotations. */
  function RotationCount(vars: seq<string>): nat {
    if vars == [] then 0
    else RotationCount(vars[..|vars| - 1]) + (if Kind(vars[|vars| - 1]) == "rotation" then 1 else 0)
  }

  /** How many rotation specifications the whole description holds. */
  function TotalRotations(specs: seq<TileSpec>): nat {
    if specs == [] then 0
    else TotalRotations(specs[..|specs| - 1]) + RotationCount(specs[|specs| - 1].variantes)
  }

  /** Every variant tile is the base tile turned by some number of quarter
      turns, one per rotation specification; other kinds add nothing. */
  lemma {:induction false} VariantTilesShape(base: Tile, vars: seq<string>)
    requires VariantTiles(base, vars).Ok?
    ensures |VariantTiles(base, vars).value| == RotationCount(vars)
    ensures forall t :: t in VariantTiles(base, vars).value ==>
              HasFourSides(base) && exists k: nat :: t == RotateTile(base, k)
  {
    if vars != [] {
      VariantTilesShape(base, vars[..|vars| - 1]);
    }
  }

  /** An expansion is the base tile itself followed by one rotated copy per
      rotation specification. */
  lemma ExpandShape(spec: TileSpec)
    requires Expand(spec).Ok?
    ensures Expand(spec).value[0] == BaseTile(spec)
    ensures |Expand(spec).value| == 1 + RotationCount(spec.variantes)
    ensures |Expand(spec).value| > 1 ==> HasFourSides(BaseTile(spec))
    ensures forall j :: 1 <= j < |Expand(spec).value| ==>
              exists k: nat :: Expand(spec).value[j] == RotateTile(BaseTile(spec), k)
  {
    var base := BaseTile(spec);
    VariantTilesShape(base, spec.variantes);
    var vs := VariantTiles(base, spec.variantes).value;
    var e := Expand(spec).value;
    assert e == [base] + vs;
    if |e| > 1 {
      assert vs[0] in vs;
    }
    forall j | 1 <= j < |e|
      ensures exists k: nat :: e[j] == RotateTile(base, k)
    {
      assert e[j] == vs[j - 1] && vs[j - 1] in vs;
    }
  }

  /** The variant specifications "rotation-k" for each number `k` of `ks`, in order. */
  function RotationSpecs(ks: seq<nat>): (r: seq<string>)
    ensures |r| == |ks|
  {
    seq(|ks|, j requires 0 <= j < |ks| => "rotation-" + ShowNat(ks[j]))
  }

  /** The base tile turned by each number of `ks`, in order. */
  function RotatedCopies(base: Tile, ks: seq<nat>): (r: seq<Tile>)
    requires HasFourSides(base)
    ensures |r| == |ks|
  {
    seq(|ks|, j requires 0 <= j < |ks| => RotateTile(base, ks[j]))
  }

  /** Rotation specifications yield their turned copies in declaration order:
      the `j`-th variant is the base tile turned by the `j`-th number. */
  lemma {:induction false} VariantTilesInOrder(base: Tile, ks: seq<nat>)
    requires HasFourSides(base)
    ensures VariantTiles(base, RotationSpecs(ks)) == Ok(RotatedCopies(base, ks))
  {
    if ks != [] {
      var n := |ks| - 1;
      assert RotationSpecs(ks)[..n] == RotationSpecs(ks[..n]);
      assert RotationSpecs(ks)[n] == "rotation-" + ShowNat(ks[n]);
      VariantTilesInOrder(base, ks[..n]);
      RotationSpecYieldsRotation(base, ks[n]);
      assert RotatedCopies(base, ks) == RotatedCopies(base, ks[..n]) + [RotateTile(base, ks[n])];
    }
  }

  /** An entry whose variants are all rotations expands to its base tile
      followed by the turned copies, in declaration order. */
  lemma ExpandInOrder(codeSides: seq<string>, imgPath: string, ks: seq<nat>)
    requires |codeSides| >= 4
    ensures var spec := TileSpec(codeSides, imgPath, RotationSpecs(ks));
            Expand(spec) == Ok([BaseTile(spec)] + RotatedCopies(BaseTile(spec), ks))
  {
    var spec := TileSpec(codeSides, imgPath, RotationSpecs(ks));
    VariantTilesInOrder(BaseTile(spec), ks);
  }

  /** The catalog of two descriptions one after the other is the first catalog
      followed by the second, and the first error wins. */
  lemma {:induction false} CatalogAppend(a: seq<TileSpec>, b: seq<TileSpec>)
    ensures CatalogOf(a + b) ==
      match CatalogOf(a)
      case Err(e) => Err(e)
      case Ok(ca) =>
        match CatalogOf(b)
        case Err(e) => Err(e)
        case Ok(cb) => Ok(ca + cb)
  {
    if b == [] {
      assert a + b == a;
      match CatalogOf(a)
      case Err(e) =>
      case Ok(ca) => assert ca + [] == ca;
    } else {
      var b' := b[..|b| - 1];
      assert (a + b)[..|a + b| - 1] == a + b';
      assert (a + b)[|a + b| - 1] == b[|b| - 1];
      CatalogAppend(a, b');
      match CatalogOf(a)
      case Err(e) =>
      case Ok(ca) =>
        match CatalogOf(b')
        case Err(e) =>
        case Ok(cb) =>
          match Expand(b[|b| - 1])
          case Err(e) =>
          case Ok(more) =>
            assert ca + cb + more == ca + (cb + more);
    }
  }

  /** The catalog of one description is its expansion. */
  lemma CatalogOfOne(spec: TileSpec)
    ensures CatalogOf([spec]) == Expand(spec)
  {
    assert [spec][..0] == [];
    match Expand(spec)
    case Err(e) =>
    case Ok(more) => assert [] + more == more;
  }

  /** Size of the catalog: one tile per base tile plus one per rotation
      specification. */
  lemma {:induction false} CatalogSize(specs: seq<TileSpec>)
    requires CatalogOf(specs).Ok?
    ensures |CatalogOf(specs).value| == |specs| + TotalRotations(specs)
  {
    if specs != [] {
      CatalogSize(specs[..|specs| - 1]);
      ExpandShape(specs[|specs| - 1]);
    }
  }

  /** Once a prefix of the variant list fails, the whole list fails the same way. */
  lemma {:induction false} VariantTilesStop(base: Tile, vars: seq<string>, n: nat)
    requires n <= |vars| && VariantTiles(base, vars[..n]).Err?
    ensures VariantTiles(base, vars) == VariantTiles(base, vars[..n])
    decreases |vars| - n
  {
    if n < |vars| {
      assert vars[..n + 1][..n] == vars[..n];
      VariantTilesStop(base, vars, n + 1);
    } else {
      assert vars[..n] == vars;
    }
  }

  /** Once a prefix of the description fails, the whole description fails the
      same way. */
  lemma {:induction false} CatalogStop(specs: seq<TileSpec>, n: nat)
    requires n <= |specs| && CatalogOf(specs[..n]).Err?
    ensures CatalogOf(specs) == CatalogOf(specs[..n])
    decreases |specs| - n
  {
    if n < |specs| {
      assert specs[..n + 1][..n] == specs[..n];
      CatalogStop(specs, n + 1);
    } else {
      assert specs[..n] == specs;
    }
  }

  /** `Tile.fromFolder` without the file reading: the loops of the original
      program, appending each base tile and then its variants. */
  method FromFolder(specs: seq<TileSpec>) returns (r: Result<seq<Tile>, CatalogError>)
    ensures r == CatalogOf(specs)
  {
    var tileMap: seq<Tile> := [];
    for j := 0 to |specs|
      invariant CatalogOf(specs[..j]) == Ok(tileMap)
    {
      var spec := specs[j];
      var base := BaseTile(spec);
      assert specs[..j + 1][..j] == specs[..j] && specs[..j + 1][j] == spec;
      var made := AddVariants(base, spec.variantes);
      if made.Err? {
        CatalogStop(specs, j + 1);
        return Err(made.error);
      }
      assert tileMap + ([base] + made.value) == tileMap + [base] + made.value;
      tileMap := tileMap + [base] + made.value;
    }
    assert specs[..|specs|] == specs;
    return Ok(tileMap);
  }

  /** The inner loop of `Tile.fromFolder`: the variants of one base tile, in
      the order their specifications are listed. */
  method AddVariants(base: Tile, vars: seq<string>) returns (r: Result<seq<Tile>, CatalogError>)
    ensures r == VariantTiles(base, vars)
  {
    var added: seq<Tile> := [];
    for v := 0 to |vars|
      invariant VariantTiles(base, vars[..v]) == Ok(added)
    {
      assert vars[..v + 1][..v] == vars[..v] && vars[..v + 1][v] == vars[v];
      var made := VariantOf(base, vars[v]);
      if made.Err? {
        VariantTilesStop(base, vars, v + 1);
        return Err(made.error);
      }
      if made.value.Some? {
        added := added + [made.value.value];
      }
    }
    assert vars[..|vars|] == vars;
    return Ok(added);
  }
}
