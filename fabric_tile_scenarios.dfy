/**
 * Clients of the fabric-tile registry: small fabrics built tile by tile, and what
 * the unique-tile index is known to be for them from the registry's contracts alone.
 */
module FabricTileScenarios {
  import opened FirstMatchPartition
  import opened FabricTiles

  /** Give tile t the programmable blocks pb, the same coordinates in both frames. */
  method AddPbs(fabric: FabricTile, t: FabricTileId, pb: seq<Point>)
    requires fabric.Valid() && fabric.ValidTileId(t) && fabric.pbCoords[t.index] == []
    modifies fabric
    ensures fabric.Valid() && fabric.pbCoords == old(fabric.pbCoords)[t.index := pb]
    ensures fabric.pbGsbCoords == old(fabric.pbGsbCoords)[t.index := pb]
    ensures fabric.ids == old(fabric.ids) && fabric.coords == old(fabric.coords)
    ensures fabric.cbxCoords == old(fabric.cbxCoords) && fabric.cbyCoords == old(fabric.cbyCoords)
    ensures fabric.sbCoords == old(fabric.sbCoords) && fabric.tileLookup == old(fabric.tileLookup)
  {
    assert |fabric.pbGsbCoords[t.index]| == |fabric.pbCoords[t.index]|;
    var k := 0;
    while k < |pb|
      invariant k <= |pb| && fabric.Valid()
      invariant fabric.pbCoords == old(fabric.pbCoords)[t.index := pb[..k]]
      invariant fabric.pbGsbCoords == old(fabric.pbGsbCoords)[t.index := pb[..k]]
      invariant fabric.ids == old(fabric.ids) && fabric.coords == old(fabric.coords)
      invariant fabric.cbxCoords == old(fabric.cbxCoords) && fabric.cbyCoords == old(fabric.cbyCoords)
      invariant fabric.sbCoords == old(fabric.sbCoords) && fabric.tileLookup == old(fabric.tileLookup)
    {
      fabric.AddPbCoordinate(t, pb[k], pb[k]);
      assert pb[..k + 1] == pb[..k] + [pb[k]];
      k := k + 1;
    }
    assert pb[..|pb|] == pb;
  }

  /** Give tile t the x-connection blocks cbx. */
  method AddCbxs(fabric: FabricTile, t: FabricTileId, cbx: seq<Point>)
    requires fabric.Valid() && fabric.ValidTileId(t) && fabric.cbxCoords[t.index] == []
    modifies fabric
    ensures fabric.Valid() && fabric.cbxCoords == old(fabric.cbxCoords)[t.index := cbx]
    ensures fabric.ids == old(fabric.ids) && fabric.coords == old(fabric.coords)
    ensures fabric.pbCoords == old(fabric.pbCoords) && fabric.cbyCoords == old(fabric.cbyCoords)
    ensures fabric.pbGsbCoords == old(fabric.pbGsbCoords)
    ensures fabric.sbCoords == old(fabric.sbCoords) && fabric.tileLookup == old(fabric.tileLookup)
  {
    var k := 0;
    while k < |cbx|
      invariant k <= |cbx| && fabric.Valid()
      invariant fabric.cbxCoords == old(fabric.cbxCoords)[t.index := cbx[..k]]
      invariant fabric.ids == old(fabric.ids) && fabric.coords == old(fabric.coords)
      invariant fabric.pbCoords == old(fabric.pbCoords) && fabric.cbyCoords == old(fabric.cbyCoords)
      invariant fabric.pbGsbCoords == old(fabric.pbGsbCoords)
      invariant fabric.sbCoords == old(fabric.sbCoords) && fabric.tileLookup == old(fabric.tileLookup)
    {
      fabric.AddCbCoordinate(t, ChanX, cbx[k]);
      assert cbx[..k + 1] == cbx[..k] + [cbx[k]];
      k := k + 1;
    }
    assert cbx[..|cbx|] == cbx;
  }

  /** Create a tile at a free cell coord and give it the programmable blocks pb and the
      x-connection blocks cbx. */
  method PlaceTile(fabric: FabricTile, coord: Point, pb: seq<Point>, cbx: seq<Point>) returns (t: FabricTileId)
    requires fabric.Valid() && InRange(fabric.tileLookup, coord) && coord !in fabric.coords
    modifies fabric
    ensures fabric.Valid() && t == TileId(old(|fabric.ids|))
    ensures fabric.coords == old(fabric.coords) + [coord]
    ensures fabric.pbCoords == old(fabric.pbCoords) + [pb] && fabric.pbGsbCoords == old(fabric.pbGsbCoords) + [pb]
    ensures fabric.cbxCoords == old(fabric.cbxCoords) + [cbx]
    ensures fabric.cbyCoords == old(fabric.cbyCoords) + [[]] && fabric.sbCoords == old(fabric.sbCoords) + [[]]
    ensures SameShape(fabric.tileLookup, old(fabric.tileLookup))
  {
    assert fabric.FindTile(coord) == InvalidTileId;
    t := fabric.CreateTile(coord);
    AddPbs(fabric, t, pb);
    AddCbxs(fabric, t, cbx);
  }

  /** The four cells of a 2 x 2 fabric. */
  const Grid: seq<Point> := [Point(0, 0), Point(0, 1), Point(1, 0), Point(1, 1)]

  /** Four tiles at the cells of Grid, each with one programmable block at its own cell. */
  method BuildGrid() returns (fabric: FabricTile)
    ensures fresh(fabric) && fabric.Valid() && fabric.coords == Grid
    ensures forall k :: 0 <= k < 4 ==> fabric.pbCoords[k] == [Grid[k]]
    ensures forall k :: 0 <= k < 4 ==> fabric.cbxCoords[k] == [] && fabric.cbyCoords[k] == []
    ensures forall k :: 0 <= k < 4 ==> fabric.sbCoords[k] == []
  {
    fabric := new FabricTile();
    fabric.Init(Point(2, 2));
    var i := 0;
    while i < 4
      invariant i <= 4 && fabric.Valid() && fabric.coords == Grid[..i]
      invariant SameShape(fabric.tileLookup, BlankTable(2, 2))
      invariant forall k :: 0 <= k < i ==> fabric.pbCoords[k] == [Grid[k]]
      invariant forall k :: 0 <= k < i ==> fabric.cbxCoords[k] == [] && fabric.cbyCoords[k] == []
      invariant forall k :: 0 <= k < i ==> fabric.sbCoords[k] == []
    {
      SameShapeInRange(fabric.tileLookup, BlankTable(2, 2));
      var _ := PlaceTile(fabric, Grid[i], [Grid[i]], []);
      assert Grid[..i + 1] == Grid[..i] + [Grid[i]];
      i := i + 1;
    }
  }

  /** Under a signature that gives the four programmable blocks the same type, the four tiles of
      BuildGrid have one key. */
  lemma GridKeys<S>(fabric: FabricTile, sig: (SubBlockKind, Point, Point) -> S)
    requires fabric.Valid() && fabric.coords == Grid
    requires forall k :: 0 <= k < 4 ==> fabric.pbCoords[k] == [Grid[k]]
    requires forall k :: 0 <= k < 4 ==> fabric.cbxCoords[k] == [] && fabric.cbyCoords[k] == []
    requires forall k :: 0 <= k < 4 ==> fabric.sbCoords[k] == []
    requires forall k :: 0 <= k < 4 ==> sig(PbBlock, Grid[k], Grid[k]) == sig(PbBlock, Grid[0], Grid[0])
    ensures forall t :: 0 <= t < 4 ==> fabric.TileKeys(sig)[t] == fabric.TileKeys(sig)[0]
  {
  }

  /** Once the index is built over the tiles of BuildGrid, the first tile is the only unique tile and
      every cell of the grid resolves to it. */
  lemma GridUnique<S>(fabric: FabricTile, sig: (SubBlockKind, Point, Point) -> S)
    requires fabric.Valid() && fabric.Built(sig) && fabric.coords == Grid
    requires forall k :: 0 <= k < 4 ==> fabric.pbCoords[k] == [Grid[k]]
    requires forall k :: 0 <= k < 4 ==> fabric.cbxCoords[k] == [] && fabric.cbyCoords[k] == []
    requires forall k :: 0 <= k < 4 ==> fabric.sbCoords[k] == []
    requires forall k :: 0 <= k < 4 ==> sig(PbBlock, Grid[k], Grid[k]) == sig(PbBlock, Grid[0], Grid[0])
    ensures fabric.UniqueTiles() == [TileId(0)]
    ensures forall t :: 0 <= t < 4 ==> fabric.UniqueTile(Grid[t]) == TileId(0)
  {
    GridKeys(fabric, sig);
    RepsAllEquivalent(fabric.TileKeys(sig), 4);
    forall t | 0 <= t < 4 ensures fabric.UniqueTile(Grid[t]) == TileId(0) {
      fabric.UniqueTileCovers(sig, t);
    }
  }

  /** A 2 x 2 fabric whose four tiles each hold one programmable block of the same signature and no
      routing blocks has a single unique tile, and every coordinate resolves to it. */
  method UniformGrid<S(==)>(sig: (SubBlockKind, Point, Point) -> S) returns (fabric: FabricTile, count: int)
    requires forall k :: 0 <= k < 4 ==> sig(PbBlock, Grid[k], Grid[k]) == sig(PbBlock, Grid[0], Grid[0])
    ensures fabric.Valid() && count == 1
    ensures fabric.UniqueTiles() == [TileId(0)]
    ensures forall t :: 0 <= t < 4 ==> fabric.UniqueTile(Grid[t]) == TileId(0)
  {
    fabric := BuildGrid();
    count := fabric.BuildUniqueTiles(sig);
    GridUnique(fabric, sig);
  }

  /** Three tiles in a row; the middle one has two x-connection blocks, the end ones one each. */
  method BuildRow() returns (fabric: FabricTile)
    ensures fresh(fabric) && fabric.Valid() && fabric.coords == [Point(0, 0), Point(1, 0), Point(2, 0)]
    ensures |fabric.cbxCoords[0]| == 1 && |fabric.cbxCoords[1]| == 2 && |fabric.cbxCoords[2]| == 1
  {
    fabric := new FabricTile();
    fabric.Init(Point(3, 1));
    ghost var blank := fabric.tileLookup;
    var _ := PlaceTile(fabric, Point(0, 0), [], [Point(0, 0)]);
    SameShapeInRange(fabric.tileLookup, blank);
    var _ := PlaceTile(fabric, Point(1, 0), [], [Point(1, 0), Point(1, 1)]);
    SameShapeInRange(fabric.tileLookup, blank);
    var _ := PlaceTile(fabric, Point(2, 0), [], [Point(2, 0)]);
  }

  /** Once the index is built over the tiles of BuildRow, the middle tile's unique tile is neither end
      tile's, whatever the signature function. */
  lemma RowSeparate<S>(fabric: FabricTile, sig: (SubBlockKind, Point, Point) -> S)
    requires fabric.Valid() && fabric.Built(sig) && fabric.coords == [Point(0, 0), Point(1, 0), Point(2, 0)]
    requires |fabric.cbxCoords[0]| == 1 && |fabric.cbxCoords[1]| == 2 && |fabric.cbxCoords[2]| == 1
    ensures |fabric.UniqueTiles()| >= 2
    ensures fabric.UniqueTile(Point(1, 0)) != fabric.UniqueTile(Point(0, 0))
    ensures fabric.UniqueTile(Point(1, 0)) != fabric.UniqueTile(Point(2, 0))
  {
    fabric.UniqueTileCovers(sig, 0);
    fabric.UniqueTileCovers(sig, 1);
    fabric.UniqueTileCovers(sig, 2);
    assert fabric.TileCoordinate(TileId(0)) == Point(0, 0);
    assert fabric.TileCoordinate(TileId(1)) == Point(1, 0);
    assert fabric.TileCoordinate(TileId(2)) == Point(2, 0);
    assert !fabric.Equivalent(TileId(1), TileId(0), sig) && !fabric.Equivalent(TileId(1), TileId(2), sig);
  }

  /** In that row there are at least two unique tiles. */
  method Row<S(==)>(sig: (SubBlockKind, Point, Point) -> S) returns (fabric: FabricTile, count: int)
    ensures fabric.Valid() && count >= 2
    ensures fabric.UniqueTile(Point(1, 0)) != fabric.UniqueTile(Point(0, 0))
    ensures fabric.UniqueTile(Point(1, 0)) != fabric.UniqueTile(Point(2, 0))
  {
    fabric := BuildRow();
    count := fabric.BuildUniqueTiles(sig);
    RowSeparate(fabric, sig);
  }

  /** Building the unique-tile index twice over unchanged tiles gives the same index and count. */
  method BuildTwice<S(==)>(fabric: FabricTile, sig: (SubBlockKind, Point, Point) -> S) returns (first: int, second: int)
    requires fabric.Valid()
    modifies fabric
    ensures fabric.Valid() && first == second
  {
    first := fabric.BuildUniqueTiles(sig);
    ghost var once := fabric.uniqueIds;
    second := fabric.BuildUniqueTiles(sig);
    assert fabric.uniqueIds == once;
  }
}
