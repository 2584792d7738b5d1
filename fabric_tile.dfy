/**
 * The fabric-tile registry of an FPGA fabric: tiles with one grid coordinate
 * each, the coordinates of the programmable block (in the device-grid frame
 * and in the GSB frame), connection blocks and switch blocks of every tile,
 * a dense coordinate-to-tile lookup, and the index of structurally unique
 * tiles.
 */
module FabricTiles {
  import opened FirstMatchPartition

  /** A grid coordinate; both components are unsigned. */
  datatype Point = Point(x: nat, y: nat)

  /** A tile identity: dense and assigned in creation order, or the invalid marker. */
  datatype FabricTileId = InvalidTileId | TileId(index: nat)

  /** The two connection-block orientations. */
  datatype CbType = ChanX | ChanY

  /** The kinds of sub-block whose structure the equivalence test compares. */
  datatype SubBlockKind = PbBlock | CbxBlock | CbyBlock | SbBlock

  // ---------------------------------------------------------------------------
  // Dense [x][y] tables

  /** The cell c exists in the [x][y] table (rows may differ in length). */
  predicate InRange<T>(table: seq<seq<T>>, c: Point) {
    c.x < |table| && c.y < |table[c.x]|
  }

  function At<T>(table: seq<seq<T>>, c: Point): T
    requires InRange(table, c)
  {
    table[c.x][c.y]
  }

  /** The table with cell c overwritten by v. */
  function Put<T>(table: seq<seq<T>>, c: Point, v: T): (r: seq<seq<T>>)
    requires InRange(table, c)
    ensures SameShape(r, table)
    ensures forall d :: InRange(table, d) ==> At(r, d) == if d == c then v else At(table, d)
  {
    table[c.x := table[c.x][c.y := v]]
  }

  /** Two tables have the same cells. */
  predicate SameShape<T, U>(a: seq<seq<T>>, b: seq<seq<U>>) {
    |a| == |b| && forall x :: 0 <= x < |a| ==> |a[x]| == |b[x]|
  }

  lemma SameShapeInRange<T, U>(a: seq<seq<T>>, b: seq<seq<U>>)
    requires SameShape(a, b)
    ensures forall c :: InRange(a, c) <==> InRange(b, c)
  {
  }

  /** A table of w columns of h cells, all invalid. */
  function BlankTable(w: nat, h: nat): (r: seq<seq<FabricTileId>>)
    ensures forall c :: InRange(r, c) <==> c.x < w && c.y < h
    ensures forall c :: InRange(r, c) ==> At(r, c) == InvalidTileId
  {
    seq(w, _ => seq(h, _ => InvalidTileId))
  }

  /** An all-invalid table with the cells of the given one. */
  function BlankLike<T>(table: seq<seq<T>>): (r: seq<seq<FabricTileId>>)
    ensures SameShape(r, table)
    ensures forall c :: InRange(r, c) ==> At(r, c) == InvalidTileId
  {
    seq(|table|, x requires 0 <= x < |table| => seq(|table[x]|, _ => InvalidTileId))
  }

  // ---------------------------------------------------------------------------
  // Structural signatures

  /** The signatures of a list of sub-blocks of the tile at origin, position by position. A signature
      function receives the kind, the tile's own coordinate and the sub-block's coordinate, so it can
      describe a sub-block relative to its tile's origin. */
  function Signatures<S>(origin: Point, coords: seq<Point>, kind: SubBlockKind, sig: (SubBlockKind, Point, Point) -> S): seq<S> {
    seq(|coords|, k requires 0 <= k < |coords| => sig(kind, origin, coords[k]))
  }

  /** Two sub-block lists have the same count and, position by position, the same signature. */
  predicate SameSignatures<S(==)>(originA: Point, a: seq<Point>, originB: Point, b: seq<Point>, kind: SubBlockKind,
                                  sig: (SubBlockKind, Point, Point) -> S) {
    |a| == |b| && forall k :: 0 <= k < |a| ==> sig(kind, originA, a[k]) == sig(kind, originB, b[k])
  }

  lemma SameSignaturesIffEqual<S>(originA: Point, a: seq<Point>, originB: Point, b: seq<Point>, kind: SubBlockKind,
                                  sig: (SubBlockKind, Point, Point) -> S)
    ensures SameSignatures(originA, a, originB, b, kind, sig)
            <==> Signatures(originA, a, kind, sig) == Signatures(originB, b, kind, sig)
  {
    if Signatures(originA, a, kind, sig) == Signatures(originB, b, kind, sig) {
      forall k | 0 <= k < |a| ensures sig(kind, originA, a[k]) == sig(kind, originB, b[k]) {
        assert Signatures(originA, a, kind, sig)[k] == sig(kind, originA, a[k]);
      }
    }
  }

  /** Everything the equivalence test looks at in one tile. */
  datatype TileKey<S> = TileKey(pb: seq<S>, cbx: seq<S>, cby: seq<S>, sb: seq<S>)

  /** The key of every tile, from the per-tile sub-block lists. */
  function Keys<S>(origins: seq<Point>, pb: seq<seq<Point>>, cbx: seq<seq<Point>>, cby: seq<seq<Point>>,
                   sb: seq<seq<Point>>, sig: (SubBlockKind, Point, Point) -> S): (r: seq<TileKey<S>>)
    requires |origins| == |pb| && |cbx| == |pb| && |cby| == |pb| && |sb| == |pb|
    ensures |r| == |pb|
  {
    seq(|pb|, i requires 0 <= i < |pb| =>
      TileKey(Signatures(origins[i], pb[i], PbBlock, sig), Signatures(origins[i], cbx[i], CbxBlock, sig),
              Signatures(origins[i], cby[i], CbyBlock, sig), Signatures(origins[i], sb[i], SbBlock, sig)))
  }

  /** Linear scan: the first position of coord in list, or |list| when it is absent. */
  method IndexOf(list: seq<Point>, coord: Point) returns (idx: nat)
    ensures idx <= |list|
    ensures idx < |list| ==> list[idx] == coord
    ensures forall k :: 0 <= k < idx ==> list[k] != coord
  {
    idx := 0;
    while idx < |list| && list[idx] != coord
      invariant idx <= |list|
      invariant forall k :: 0 <= k < idx ==> list[k] != coord
    {
      idx := idx + 1;
    }
  }

  /** Position-by-position comparison of the signatures of two sub-block lists. */
  method CompareSignatures<S(==)>(originA: Point, a: seq<Point>, originB: Point, b: seq<Point>, kind: SubBlockKind,
                                  sig: (SubBlockKind, Point, Point) -> S)
    returns (same: bool)
    ensures same == SameSignatures(originA, a, originB, b, kind, sig)
  {
    if |a| != |b| {
      return false;
    }
    var k := 0;
    while k < |a|
      invariant k <= |a|
      invariant forall i :: 0 <= i < k ==> sig(kind, originA, a[i]) == sig(kind, originB, b[i])
    {
      if sig(kind, originA, a[k]) != sig(kind, originB, b[k]) {
        return false;
      }
      k := k + 1;
    }
    return true;
  }

  /** The ids are tile ids in strictly ascending order. */
  predicate Ascending(s: seq<FabricTileId>) {
    forall j1, j2 :: 0 <= j1 < j2 < |s| ==> s[j1].TileId? && s[j2].TileId? && s[j1].index < s[j2].index
  }

  /** Strictly ascending ids below n are at most n. */
  lemma {:induction false} AscendingBound(s: seq<FabricTileId>, n: nat)
    requires Ascending(s) && forall j :: 0 <= j < |s| ==> s[j].TileId? && s[j].index < n
    ensures |s| <= n
  {
    if |s| > 0 {
      var init := s[..|s| - 1];
      assert Ascending(init);
      forall j | 0 <= j < |init| ensures init[j].TileId? && init[j].index < s[|s| - 1].index {
        assert init[j] == s[j];
      }
      AscendingBound(init, s[|s| - 1].index);
    }
  }

  function AsTileIds(s: seq<nat>): (r: seq<FabricTileId>)
    ensures |r| == |s| && forall j :: 0 <= j < |s| ==> r[j] == TileId(s[j])
  {
    seq(|s|, j requires 0 <= j < |s| => TileId(s[j]))
  }

  /** Tile i is registered at coords[i], and every registered cell names the tile whose coordinate it is. */
  ghost predicate Registered(coords: seq<Point>, lookup: seq<seq<FabricTileId>>) {
    && (forall i :: 0 <= i < |coords| ==> InRange(lookup, coords[i]) && At(lookup, coords[i]) == TileId(i))
    && (forall c :: InRange(lookup, c) && At(lookup, c).TileId? ==>
          At(lookup, c).index < |coords| && coords[At(lookup, c).index] == c)
  }

  /** Every tile named in the table is below n. */
  ghost predicate TableBelow(table: seq<seq<FabricTileId>>, n: nat) {
    forall c :: InRange(table, c) && At(table, c).TileId? ==> At(table, c).index < n
  }

  // ---------------------------------------------------------------------------
  // The scan of build_unique_tiles, on values

  /** Tile t's cell in the table names the first representative equivalent to it. */
  ghost predicate Mapped<K>(keys: seq<K>, coords: seq<Point>, reps: seq<nat>, table: seq<seq<FabricTileId>>, t: nat) {
    && t < |keys| && t < |coords|
    && FirstMatch(keys, reps, keys[t]) < |reps|
    && InRange(table, coords[t])
    && At(table, coords[t]) == TileId(reps[FirstMatch(keys, reps, keys[t])])
  }

  /** Each of the tiles 0 .. i-1 is mapped. */
  ghost predicate AllMapped<K>(keys: seq<K>, coords: seq<Point>, reps: seq<nat>, table: seq<seq<FabricTileId>>, i: nat) {
    forall t :: 0 <= t < i ==> Mapped(keys, coords, reps, table, t)
  }

  /** Every cell not registered to one of the tiles 0 .. i-1 is invalid in the table. */
  ghost predicate BlankBeyond(lookup: seq<seq<FabricTileId>>, table: seq<seq<FabricTileId>>, i: nat) {
    forall c :: InRange(lookup, c) && !(At(lookup, c).TileId? && At(lookup, c).index < i) ==>
      InRange(table, c) && At(table, c) == InvalidTileId
  }

  /** After scanning tiles 0 .. i-1: reps are their representatives, each scanned tile's cell names
      its representative, and every other cell is still invalid. */
  ghost predicate ScanInv<K>(keys: seq<K>, coords: seq<Point>, lookup: seq<seq<FabricTileId>>,
                             i: nat, reps: seq<nat>, table: seq<seq<FabricTileId>>) {
    && i <= |keys| && |coords| == |keys|
    && reps == Reps(keys, i)
    && SameShape(table, lookup)
    && AllMapped(keys, coords, reps, table, i)
    && BlankBeyond(lookup, table, i)
  }

  lemma ScanStart<K>(keys: seq<K>, coords: seq<Point>, lookup: seq<seq<FabricTileId>>)
    requires |coords| == |keys|
    ensures ScanInv(keys, coords, lookup, 0, [], BlankLike(lookup))
  {
  }

  /** The representatives after tile i is scanned. */
  ghost function StepReps<K>(keys: seq<K>, reps: seq<nat>, i: nat): seq<nat>
    requires i < |keys|
  {
    if FirstMatch(keys, reps, keys[i]) < |reps| then reps else reps + [i]
  }

  /** The representative tile i is mapped to when it is scanned. */
  ghost function StepRep<K>(keys: seq<K>, reps: seq<nat>, i: nat): nat
    requires i < |keys|
  {
    var j := FirstMatch(keys, reps, keys[i]);
    if j < |reps| then reps[j] else i
  }

  /** One step of the scan: tile i joins the class of the first equivalent representative, or becomes
      a new representative, and its cell is written accordingly. */
  lemma ScanStep<K>(keys: seq<K>, coords: seq<Point>, lookup: seq<seq<FabricTileId>>,
                    i: nat, reps: seq<nat>, table: seq<seq<FabricTileId>>)
    requires Registered(coords, lookup) && ScanInv(keys, coords, lookup, i, reps, table) && i < |keys|
    ensures InRange(table, coords[i])
    ensures ScanInv(keys, coords, lookup, i + 1, StepReps(keys, reps, i),
                    Put(table, coords[i], TileId(StepRep(keys, reps, i))))
  {
    SameShapeInRange(table, lookup);
    assert StepReps(keys, reps, i) == Reps(keys, i + 1);
    StepKeepsMapped(keys, coords, lookup, i, reps, table);
    StepKeepsBlank(keys, coords, lookup, i, reps, table);
  }

  /** A scan step maps the tile it visits and leaves the cells of the tiles scanned before unchanged. */
  lemma StepKeepsMapped<K>(keys: seq<K>, coords: seq<Point>, lookup: seq<seq<FabricTileId>>,
                           i: nat, reps: seq<nat>, table: seq<seq<FabricTileId>>)
    requires Registered(coords, lookup) && ScanInv(keys, coords, lookup, i, reps, table) && i < |keys|
    requires InRange(table, coords[i])
    ensures AllMapped(keys, coords, StepReps(keys, reps, i), Put(table, coords[i], TileId(StepRep(keys, reps, i))), i + 1)
  {
    forall t | 0 <= t < i
      ensures Mapped(keys, coords, StepReps(keys, reps, i), Put(table, coords[i], TileId(StepRep(keys, reps, i))), t)
    {
      StepKeepsOne(keys, coords, lookup, i, reps, table, t);
    }
    StepMapsNew(keys, coords, lookup, i, reps, table);
  }

  lemma StepKeepsOne<K>(keys: seq<K>, coords: seq<Point>, lookup: seq<seq<FabricTileId>>,
                        i: nat, reps: seq<nat>, table: seq<seq<FabricTileId>>, t: nat)
    requires Registered(coords, lookup) && ScanInv(keys, coords, lookup, i, reps, table) && t < i < |keys|
    requires InRange(table, coords[i])
    ensures Mapped(keys, coords, StepReps(keys, reps, i), Put(table, coords[i], TileId(StepRep(keys, reps, i))), t)
  {
    assert Mapped(keys, coords, reps, table, t);
    assert At(lookup, coords[t]) != At(lookup, coords[i]);
    if FirstMatch(keys, reps, keys[i]) == |reps| {
      FirstMatchAppend(keys, reps, i, keys[t]);
    }
  }

  lemma StepMapsNew<K>(keys: seq<K>, coords: seq<Point>, lookup: seq<seq<FabricTileId>>,
                       i: nat, reps: seq<nat>, table: seq<seq<FabricTileId>>)
    requires ScanInv(keys, coords, lookup, i, reps, table) && i < |keys|
    requires InRange(table, coords[i])
    ensures Mapped(keys, coords, StepReps(keys, reps, i), Put(table, coords[i], TileId(StepRep(keys, reps, i))), i)
  {
  }

  /** A scan step writes no cell other than that of the tile it visits. */
  lemma StepKeepsBlank<K>(keys: seq<K>, coords: seq<Point>, lookup: seq<seq<FabricTileId>>,
                          i: nat, reps: seq<nat>, table: seq<seq<FabricTileId>>)
    requires Registered(coords, lookup) && ScanInv(keys, coords, lookup, i, reps, table) && i < |keys|
    requires InRange(table, coords[i])
    ensures BlankBeyond(lookup, Put(table, coords[i], TileId(StepRep(keys, reps, i))), i + 1)
  {
  }

  /** What the finished scan establishes about the table: every tile's cell names its representative,
      which comes no later than the tile; unregistered cells stay invalid; only tiles are named. */
  lemma ScanResult<K>(keys: seq<K>, coords: seq<Point>, lookup: seq<seq<FabricTileId>>,
                      reps: seq<nat>, table: seq<seq<FabricTileId>>)
    requires Registered(coords, lookup) && ScanInv(keys, coords, lookup, |keys|, reps, table)
    ensures forall t :: 0 <= t < |keys| ==>
      Mapped(keys, coords, reps, table, t) && reps[FirstMatch(keys, reps, keys[t])] <= t
    ensures forall c :: InRange(lookup, c) && At(lookup, c) == InvalidTileId ==> At(table, c) == InvalidTileId
    ensures TableBelow(table, |keys|)
  {
    forall t | 0 <= t < |keys|
      ensures FirstMatch(keys, reps, keys[t]) < |reps| && reps[FirstMatch(keys, reps, keys[t])] <= t
    {
      RepsCover(keys, |keys|, t);
    }
    ScanTableBelow(keys, coords, lookup, reps, table);
  }

  lemma ScanTableBelow<K>(keys: seq<K>, coords: seq<Point>, lookup: seq<seq<FabricTileId>>,
                          reps: seq<nat>, table: seq<seq<FabricTileId>>)
    requires Registered(coords, lookup) && ScanInv(keys, coords, lookup, |keys|, reps, table)
    ensures TableBelow(table, |keys|)
  {
    SameShapeInRange(table, lookup);
    forall c | InRange(table, c) && At(table, c).TileId?
      ensures At(table, c).index < |keys|
    {
      var t := At(lookup, c).index;
      assert Mapped(keys, coords, reps, table, t);
    }
  }

  // ---------------------------------------------------------------------------

  class FabricTile {
    /** ids[i] is TileId(i); the other per-tile sequences are index-aligned with it. */
    var ids: seq<FabricTileId>
    var coords: seq<Point>
    /** Programmable-block coordinates in the device-grid frame and in the GSB frame. */
    var pbCoords: seq<seq<Point>>
    var pbGsbCoords: seq<seq<Point>>
    var cbxCoords: seq<seq<Point>>
    var cbyCoords: seq<seq<Point>>
    var sbCoords: seq<seq<Point>>
    /** [x][y] to the tile at that coordinate, or InvalidTileId. */
    var tileLookup: seq<seq<FabricTileId>>
    /** [x][y] to the unique tile standing for the tile at that coordinate. */
    var uniqueLookup: seq<seq<FabricTileId>>
    var uniqueIds: seq<FabricTileId>

    ghost predicate Valid()
      reads this
    {
      && |coords| == |ids| && |pbCoords| == |ids| && |pbGsbCoords| == |ids|
      && |cbxCoords| == |ids| && |cbyCoords| == |ids| && |sbCoords| == |ids|
      && (forall i :: 0 <= i < |ids| ==> ids[i] == TileId(i))
      && (forall i :: 0 <= i < |ids| ==> |pbCoords[i]| == |pbGsbCoords[i]|)
      && Registered(coords, tileLookup)
      && SameShape(uniqueLookup, tileLookup)
      && (forall j :: 0 <= j < |uniqueIds| ==> uniqueIds[j].TileId? && uniqueIds[j].index < |ids|)
      && Ascending(uniqueIds)
      && TableBelow(uniqueLookup, |ids|)
    }

    constructor ()
      ensures Valid() && Empty()
      ensures ids == [] && coords == [] && tileLookup == [] && uniqueLookup == [] && uniqueIds == []
    {
      ids, coords := [], [];
      pbCoords, pbGsbCoords, cbxCoords, cbyCoords, sbCoords := [], [], [], [], [];
      tileLookup, uniqueLookup, uniqueIds := [], [], [];
    }

    // ---- Validators and accessors

    predicate ValidTileId(t: FabricTileId)
      reads this
      ensures ValidTileId(t) ==> t in ids
      ensures Valid() ==> (ValidTileId(t) <==> t in ids)
    {
      t.TileId? && t.index < |ids| && ids[t.index] == t
    }

    /** No tile is defined. */
    predicate Empty()
      reads this
      requires Valid()
      ensures Empty() <==> forall t :: !ValidTileId(t)
    {
      assert |ids| > 0 ==> ValidTileId(TileId(0));
      |ids| == 0
    }

    function TileCoordinate(t: FabricTileId): (c: Point)
      reads this
      requires Valid() && ValidTileId(t)
      ensures FindTile(c) == t
    {
      coords[t.index]
    }

    function PbCoordinates(t: FabricTileId): (r: seq<Point>)
      reads this
      requires Valid() && ValidTileId(t)
      ensures r == pbCoords[t.index]
      ensures |r| == |pbGsbCoords[t.index]|
    {
      pbCoords[t.index]
    }

    function CbCoordinates(t: FabricTileId, cbType: CbType): (r: seq<Point>)
      reads this
      requires Valid() && ValidTileId(t)
      ensures r == if cbType == ChanX then cbxCoords[t.index] else cbyCoords[t.index]
    {
      match cbType
      case ChanX => cbxCoords[t.index]
      case ChanY => cbyCoords[t.index]
    }

    function SbCoordinates(t: FabricTileId): (r: seq<Point>)
      reads this
      requires Valid() && ValidTileId(t)
      ensures r == sbCoords[t.index]
    {
      sbCoords[t.index]
    }

    /** The tile at coord; InvalidTileId when no tile is there or coord is outside the lookup. */
    function FindTile(coord: Point): (r: FabricTileId)
      reads this
      requires Valid()
      ensures r.TileId? ==> ValidTileId(r) && coords[r.index] == coord
      ensures forall i :: 0 <= i < |ids| ==> (coords[i] == coord <==> r == TileId(i))
    {
      if InRange(tileLookup, coord) then At(tileLookup, coord) else InvalidTileId
    }

    /** The unique tile standing for the tile at coord; InvalidTileId outside the lookup. */
    function UniqueTile(coord: Point): (r: FabricTileId)
      reads this
      requires Valid()
      ensures r.TileId? ==> ValidTileId(r)
      ensures !InRange(tileLookup, coord) ==> r == InvalidTileId
    {
      SameShapeInRange(uniqueLookup, tileLookup);
      if InRange(uniqueLookup, coord) then At(uniqueLookup, coord) else InvalidTileId
    }

    function UniqueTiles(): (r: seq<FabricTileId>)
      reads this
      requires Valid()
      ensures forall t :: t in r ==> ValidTileId(t)
      ensures Ascending(r) && |r| <= |ids|
    {
      AscendingBound(uniqueIds, |ids|);
      uniqueIds
    }

    // ---- Sub-block searches

    /** Position of a programmable block in the tile's grid-frame list (or, with useGsbCoord, its
        GSB-frame list); the list's length when it is absent. */
    method FindPbIndexInTile(t: FabricTileId, coord: Point, useGsbCoord: bool := false) returns (idx: nat)
      requires Valid() && ValidTileId(t)
      ensures var list := if useGsbCoord then pbGsbCoords[t.index] else pbCoords[t.index];
        && idx <= |list|
        && (idx < |list| ==> list[idx] == coord)
        && (idx == |list| <==> coord !in list)
        && (forall k :: 0 <= k < idx ==> list[k] != coord)
    {
      if useGsbCoord {
        idx := IndexOf(pbGsbCoords[t.index], coord);
      } else {
        idx := IndexOf(pbCoords[t.index], coord);
      }
    }

    method FindSbIndexInTile(t: FabricTileId, coord: Point) returns (idx: nat)
      requires Valid() && ValidTileId(t)
      ensures idx <= |SbCoordinates(t)|
      ensures idx < |SbCoordinates(t)| ==> SbCoordinates(t)[idx] == coord
      ensures idx == |SbCoordinates(t)| <==> coord !in SbCoordinates(t)
      ensures forall k :: 0 <= k < idx ==> SbCoordinates(t)[k] != coord
    {
      idx := IndexOf(sbCoords[t.index], coord);
    }

    method FindCbIndexInTile(t: FabricTileId, cbType: CbType, coord: Point) returns (idx: nat)
      requires Valid() && ValidTileId(t)
      ensures idx <= |CbCoordinates(t, cbType)|
      ensures idx < |CbCoordinates(t, cbType)| ==> CbCoordinates(t, cbType)[idx] == coord
      ensures idx == |CbCoordinates(t, cbType)| <==> coord !in CbCoordinates(t, cbType)
      ensures forall k :: 0 <= k < idx ==> CbCoordinates(t, cbType)[k] != coord
    {
      idx := IndexOf(CbCoordinates(t, cbType), coord);
    }

    method PbInTile(t: FabricTileId, coord: Point, useGsbCoord: bool := false) returns (found: bool)
      requires Valid() && ValidTileId(t)
      ensures found <==> coord in (if useGsbCoord then pbGsbCoords[t.index] else pbCoords[t.index])
    {
      var idx := FindPbIndexInTile(t, coord, useGsbCoord);
      found := idx != |pbCoords[t.index]|;
    }

    method SbInTile(t: FabricTileId, coord: Point) returns (found: bool)
      requires Valid() && ValidTileId(t)
      ensures found <==> coord in SbCoordinates(t)
    {
      var idx := FindSbIndexInTile(t, coord);
      found := idx != |sbCoords[t.index]|;
    }

    method CbInTile(t: FabricTileId, cbType: CbType, coord: Point) returns (found: bool)
      requires Valid() && ValidTileId(t)
      ensures found <==> coord in CbCoordinates(t, cbType)
    {
      var idx := FindCbIndexInTile(t, cbType, coord);
      found := idx != |CbCoordinates(t, cbType)|;
    }

    // ---- Lookup maintenance

    /** Mark the cell at coord unregistered; a coordinate outside the lookup is ignored. */
    method InvalidateTileInLookup(coord: Point)
      modifies this
      ensures tileLookup == if InRange(old(tileLookup), coord) then Put(old(tileLookup), coord, InvalidTileId)
                            else old(tileLookup)
      ensures ids == old(ids) && coords == old(coords) && pbCoords == old(pbCoords)
      ensures pbGsbCoords == old(pbGsbCoords) && cbxCoords == old(cbxCoords) && cbyCoords == old(cbyCoords)
      ensures sbCoords == old(sbCoords) && uniqueLookup == old(uniqueLookup) && uniqueIds == old(uniqueIds)
    {
      if InRange(tileLookup, coord) {
        tileLookup := Put(tileLookup, coord, InvalidTileId);
      }
    }

    /** Register t at coord; refused when coord is outside the lookup or already taken. */
    method RegisterTileInLookup(t: FabricTileId, coord: Point) returns (ok: bool)
      modifies this
      ensures ok <==> InRange(old(tileLookup), coord) && At(old(tileLookup), coord) == InvalidTileId
      ensures tileLookup == if ok then Put(old(tileLookup), coord, t) else old(tileLookup)
      ensures ids == old(ids) && coords == old(coords) && pbCoords == old(pbCoords)
      ensures pbGsbCoords == old(pbGsbCoords) && cbxCoords == old(cbxCoords) && cbyCoords == old(cbyCoords)
      ensures sbCoords == old(sbCoords) && uniqueLookup == old(uniqueLookup) && uniqueIds == old(uniqueIds)
    {
      ok := InRange(tileLookup, coord) && At(tileLookup, coord) == InvalidTileId;
      if ok {
        tileLookup := Put(tileLookup, coord, t);
      }
    }

    // ---- Mutators

    /** Create a tile at coord. Refused (InvalidTileId, nothing changes) when coord lies outside the
        lookup extents or another tile is already there. */
    method CreateTile(coord: Point) returns (t: FabricTileId)
      requires Valid()
      modifies this
      ensures Valid()
      ensures t.TileId? <==> InRange(old(tileLookup), coord) && old(FindTile(coord)) == InvalidTileId
      ensures t.TileId? ==>
        && t == TileId(old(|ids|))
        && ValidTileId(t) && TileCoordinate(t) == coord && FindTile(coord) == t && !Empty()
        && ids == old(ids) + [t] && coords == old(coords) + [coord]
        && pbCoords == old(pbCoords) + [[]] && pbGsbCoords == old(pbGsbCoords) + [[]]
        && cbxCoords == old(cbxCoords) + [[]] && cbyCoords == old(cbyCoords) + [[]]
        && sbCoords == old(sbCoords) + [[]]
        && tileLookup == Put(old(tileLookup), coord, t)
        && uniqueLookup == old(uniqueLookup) && uniqueIds == old(uniqueIds)
      ensures t == InvalidTileId ==> unchanged(this)
    {
      if !(InRange(tileLookup, coord) && At(tileLookup, coord) == InvalidTileId) {
        return InvalidTileId;
      }
      t := TileId(|ids|);
      var ok := RegisterTileInLookup(t, coord);
      assert ok;
      ids := ids + [t];
      coords := coords + [coord];
      pbCoords, pbGsbCoords := pbCoords + [[]], pbGsbCoords + [[]];
      cbxCoords, cbyCoords, sbCoords := cbxCoords + [[]], cbyCoords + [[]], sbCoords + [[]];
      assert ValidTileId(t);
    }

    /** Move tile t to coord: its old cell is invalidated, then coord is registered. Refused (false,
        nothing changes) when t is not a tile, coord lies outside the lookup, or another tile is there. */
    method SetTileCoordinate(t: FabricTileId, coord: Point) returns (ok: bool)
      requires Valid()
      modifies this
      ensures Valid()
      ensures ok <==> old(ValidTileId(t)) && InRange(old(tileLookup), coord)
                      && (old(FindTile(coord)) == InvalidTileId || old(FindTile(coord)) == t)
      ensures ok ==>
        && coords == old(coords)[t.index := coord]
        && tileLookup == Put(Put(old(tileLookup), old(coords)[t.index], InvalidTileId), coord, t)
        && FindTile(coord) == t
        && (old(coords)[t.index] != coord ==> FindTile(old(coords)[t.index]) == InvalidTileId)
        && (forall c :: c != coord && c != old(coords)[t.index] ==> FindTile(c) == old(FindTile(c)))
      ensures ok ==> ids == old(ids) && pbCoords == old(pbCoords) && pbGsbCoords == old(pbGsbCoords)
                     && cbxCoords == old(cbxCoords) && cbyCoords == old(cbyCoords) && sbCoords == old(sbCoords)
                     && uniqueLookup == old(uniqueLookup) && uniqueIds == old(uniqueIds)
      ensures !ok ==> unchanged(this)
    {
      if !(ValidTileId(t) && InRange(tileLookup, coord)
           && (At(tileLookup, coord) == InvalidTileId || At(tileLookup, coord) == t)) {
        return false;
      }
      ghost var lookup0 := tileLookup;
      var from := coords[t.index];
      InvalidateTileInLookup(from);
      coords := coords[t.index := coord];
      ok := RegisterTileInLookup(t, coord);
      assert ok;
      assert tileLookup == Put(Put(lookup0, from, InvalidTileId), coord, t);
      SameShapeInRange(Put(lookup0, from, InvalidTileId), lookup0);
      SameShapeInRange(tileLookup, lookup0);
    }

    method AddPbCoordinate(t: FabricTileId, coord: Point, gsbCoord: Point)
      requires Valid() && ValidTileId(t)
      modifies this
      ensures Valid()
      ensures pbCoords == old(pbCoords)[t.index := old(pbCoords)[t.index] + [coord]]
      ensures pbGsbCoords == old(pbGsbCoords)[t.index := old(pbGsbCoords)[t.index] + [gsbCoord]]
      ensures ids == old(ids) && coords == old(coords) && cbxCoords == old(cbxCoords) && cbyCoords == old(cbyCoords)
      ensures sbCoords == old(sbCoords) && tileLookup == old(tileLookup)
      ensures uniqueLookup == old(uniqueLookup) && uniqueIds == old(uniqueIds)
    {
      pbCoords := pbCoords[t.index := pbCoords[t.index] + [coord]];
      pbGsbCoords := pbGsbCoords[t.index := pbGsbCoords[t.index] + [gsbCoord]];
    }

    /** Append coord to the connection-block list of the given orientation only. */
    method AddCbCoordinate(t: FabricTileId, cbType: CbType, coord: Point)
      requires Valid() && ValidTileId(t)
      modifies this
      ensures Valid()
      ensures cbxCoords == if cbType == ChanX then old(cbxCoords)[t.index := old(cbxCoords)[t.index] + [coord]]
                           else old(cbxCoords)
      ensures cbyCoords == if cbType == ChanY then old(cbyCoords)[t.index := old(cbyCoords)[t.index] + [coord]]
                           else old(cbyCoords)
      ensures ids == old(ids) && coords == old(coords) && pbCoords == old(pbCoords) && pbGsbCoords == old(pbGsbCoords)
      ensures sbCoords == old(sbCoords) && tileLookup == old(tileLookup)
      ensures uniqueLookup == old(uniqueLookup) && uniqueIds == old(uniqueIds)
    {
      match cbType
      case ChanX => cbxCoords := cbxCoords[t.index := cbxCoords[t.index] + [coord]];
      case ChanY => cbyCoords := cbyCoords[t.index := cbyCoords[t.index] + [coord]];
    }

    method AddSbCoordinate(t: FabricTileId, coord: Point)
      requires Valid() && ValidTileId(t)
      modifies this
      ensures Valid()
      ensures sbCoords == old(sbCoords)[t.index := old(sbCoords)[t.index] + [coord]]
      ensures ids == old(ids) && coords == old(coords) && pbCoords == old(pbCoords) && pbGsbCoords == old(pbGsbCoords)
      ensures cbxCoords == old(cbxCoords) && cbyCoords == old(cbyCoords) && tileLookup == old(tileLookup)
      ensures uniqueLookup == old(uniqueLookup) && uniqueIds == old(uniqueIds)
    {
      sbCoords := sbCoords[t.index := sbCoords[t.index] + [coord]];
    }

    /** Drop all tiles, the lookups and the unique-tile index. */
    method Clear()
      modifies this
      ensures Valid() && Empty()
      ensures ids == [] && coords == [] && pbCoords == [] && pbGsbCoords == []
      ensures cbxCoords == [] && cbyCoords == [] && sbCoords == []
      ensures tileLookup == [] && uniqueLookup == [] && uniqueIds == []
    {
      ids, coords := [], [];
      pbCoords, pbGsbCoords, cbxCoords, cbyCoords, sbCoords := [], [], [], [], [];
      tileLookup, uniqueLookup, uniqueIds := [], [], [];
    }

    /** Clear, then size both lookups to maxCoord.x columns of maxCoord.y cells, all invalid. */
    method Init(maxCoord: Point)
      modifies this
      ensures Valid() && Empty()
      ensures ids == [] && coords == [] && pbCoords == [] && pbGsbCoords == []
      ensures cbxCoords == [] && cbyCoords == [] && sbCoords == [] && uniqueIds == []
      ensures tileLookup == BlankTable(maxCoord.x, maxCoord.y) && uniqueLookup == tileLookup
      ensures forall c :: InRange(tileLookup, c) <==> c.x < maxCoord.x && c.y < maxCoord.y
      ensures forall c :: FindTile(c) == InvalidTileId && UniqueTile(c) == InvalidTileId
    {
      Clear();
      tileLookup := BlankTable(maxCoord.x, maxCoord.y);
      uniqueLookup := tileLookup;
    }

    // ---- Structural equivalence and the unique-tile index

    /** The key of every tile under the signature function sig. */
    function TileKeys<S>(sig: (SubBlockKind, Point, Point) -> S): (r: seq<TileKey<S>>)
      reads this
      requires Valid()
      ensures |r| == |ids|
    {
      Keys(coords, pbCoords, cbxCoords, cbyCoords, sbCoords, sig)
    }

    /** Tiles a and b have the same number of programmable, x- and y-connection and switch blocks,
        and, position by position, sub-blocks with the same signature. */
    predicate Equivalent<S(==)>(a: FabricTileId, b: FabricTileId, sig: (SubBlockKind, Point, Point) -> S)
      reads this
      requires Valid() && ValidTileId(a) && ValidTileId(b)
    {
      && SameSignatures(coords[a.index], pbCoords[a.index], coords[b.index], pbCoords[b.index], PbBlock, sig)
      && SameSignatures(coords[a.index], cbxCoords[a.index], coords[b.index], cbxCoords[b.index], CbxBlock, sig)
      && SameSignatures(coords[a.index], cbyCoords[a.index], coords[b.index], cbyCoords[b.index], CbyBlock, sig)
      && SameSignatures(coords[a.index], sbCoords[a.index], coords[b.index], sbCoords[b.index], SbBlock, sig)
    }

    /** Equivalence is equality of keys, hence an equivalence relation. */
    lemma EquivalentIffSameKey<S>(a: FabricTileId, b: FabricTileId, sig: (SubBlockKind, Point, Point) -> S)
      requires Valid() && ValidTileId(a) && ValidTileId(b)
      ensures Equivalent(a, b, sig) <==> TileKeys(sig)[a.index] == TileKeys(sig)[b.index]
    {
      SameSignaturesIffEqual(coords[a.index], pbCoords[a.index], coords[b.index], pbCoords[b.index], PbBlock, sig);
      SameSignaturesIffEqual(coords[a.index], cbxCoords[a.index], coords[b.index], cbxCoords[b.index], CbxBlock, sig);
      SameSignaturesIffEqual(coords[a.index], cbyCoords[a.index], coords[b.index], cbyCoords[b.index], CbyBlock, sig);
      SameSignaturesIffEqual(coords[a.index], sbCoords[a.index], coords[b.index], sbCoords[b.index], SbBlock, sig);
    }

    method EquivalentTile<S(==)>(a: FabricTileId, b: FabricTileId, sig: (SubBlockKind, Point, Point) -> S)
      returns (eq: bool)
      requires Valid() && ValidTileId(a) && ValidTileId(b)
      ensures eq == Equivalent(a, b, sig)
      ensures eq <==> TileKeys(sig)[a.index] == TileKeys(sig)[b.index]
      ensures eq ==> |pbCoords[a.index]| == |pbCoords[b.index]| && |cbxCoords[a.index]| == |cbxCoords[b.index]|
                     && |cbyCoords[a.index]| == |cbyCoords[b.index]| && |sbCoords[a.index]| == |sbCoords[b.index]|
    {
      EquivalentIffSameKey(a, b, sig);
      eq := CompareSignatures(coords[a.index], pbCoords[a.index], coords[b.index], pbCoords[b.index], PbBlock, sig);
      if !eq { return; }
      eq := CompareSignatures(coords[a.index], cbxCoords[a.index], coords[b.index], cbxCoords[b.index], CbxBlock, sig);
      if !eq { return; }
      eq := CompareSignatures(coords[a.index], cbyCoords[a.index], coords[b.index], cbyCoords[b.index], CbyBlock, sig);
      if !eq { return; }
      eq := CompareSignatures(coords[a.index], sbCoords[a.index], coords[b.index], sbCoords[b.index], SbBlock, sig);
    }

    /** Two tiles that each hold one programmable block and no routing blocks are equivalent exactly
        when their programmable blocks have the same signature. */
    lemma SinglePbEquivalent<S>(a: FabricTileId, b: FabricTileId, sig: (SubBlockKind, Point, Point) -> S)
      requires Valid() && ValidTileId(a) && ValidTileId(b)
      requires |pbCoords[a.index]| == 1 && |pbCoords[b.index]| == 1
      requires cbxCoords[a.index] == [] && cbyCoords[a.index] == [] && sbCoords[a.index] == []
      requires cbxCoords[b.index] == [] && cbyCoords[b.index] == [] && sbCoords[b.index] == []
      ensures Equivalent(a, b, sig)
              <==> sig(PbBlock, coords[a.index], pbCoords[a.index][0]) == sig(PbBlock, coords[b.index], pbCoords[b.index][0])
    {
    }

    /** Every pair of tiles is equivalent exactly when their keys are equal. */
    lemma EquivalentIsSameKey<S>(sig: (SubBlockKind, Point, Point) -> S)
      requires Valid()
      ensures forall a, b :: ValidTileId(a) && ValidTileId(b) ==>
        (Equivalent(a, b, sig) <==> TileKeys(sig)[a.index] == TileKeys(sig)[b.index])
    {
      forall a, b | ValidTileId(a) && ValidTileId(b)
        ensures Equivalent(a, b, sig) <==> TileKeys(sig)[a.index] == TileKeys(sig)[b.index]
      {
        EquivalentIffSameKey(a, b, sig);
      }
    }

    /** Position of the first representative equivalent to tile i; |reps| when there is none. */
    method FirstEquivalent<S(==)>(reps: seq<nat>, i: nat, sig: (SubBlockKind, Point, Point) -> S) returns (j: nat)
      requires Valid() && i < |ids|
      requires forall k :: 0 <= k < |reps| ==> reps[k] < |ids|
      ensures j == FirstMatch(TileKeys(sig), reps, TileKeys(sig)[i])
    {
      ghost var keys := TileKeys(sig);
      j := 0;
      var matched := false;
      while !matched && j < |reps|
        invariant j <= |reps|
        invariant matched ==> j < |reps| && keys[reps[j]] == keys[i]
        invariant forall k :: 0 <= k < j ==> keys[reps[k]] != keys[i]
        decreases |reps| - j, !matched
      {
        matched := EquivalentTile(TileId(reps[j]), TileId(i), sig);
        if !matched {
          j := j + 1;
        }
      }
      FirstMatchIs(keys, reps, keys[i], j);
    }

    /** One step of the scan: tile i joins the class of the first equivalent representative, or
        becomes a new representative, and its cell of the table is written. */
    method ScanTile<S(==)>(sig: (SubBlockKind, Point, Point) -> S, i: nat, reps: seq<nat>, table: seq<seq<FabricTileId>>)
      returns (reps': seq<nat>, table': seq<seq<FabricTileId>>)
      requires Valid() && i < |ids| && ScanInv(TileKeys(sig), coords, tileLookup, i, reps, table)
      ensures ScanInv(TileKeys(sig), coords, tileLookup, i + 1, reps', table')
    {
      ghost var keys := TileKeys(sig);
      var j := FirstEquivalent(reps, i, sig);
      ScanStep(keys, coords, tileLookup, i, reps, table);
      var rep: nat;
      if j < |reps| {
        rep := reps[j];
        reps' := reps;
      } else {
        rep := i;
        reps' := reps + [i];
      }
      table' := Put(table, coords[i], TileId(rep));
    }

    /** The scan of build_unique_tiles: tiles in identity order, each compared with the representatives
        found so far; returns the representatives and the coordinate-to-representative table. */
    method ScanUniqueTiles<S(==)>(sig: (SubBlockKind, Point, Point) -> S)
      returns (reps: seq<nat>, table: seq<seq<FabricTileId>>)
      requires Valid()
      ensures ScanInv(TileKeys(sig), coords, tileLookup, |ids|, reps, table)
    {
      ghost var keys := TileKeys(sig);
      reps := [];
      table := BlankLike(tileLookup);
      ScanStart(keys, coords, tileLookup);
      var i := 0;
      while i < |ids|
        invariant i <= |ids|
        invariant ScanInv(keys, coords, tileLookup, i, reps, table)
      {
        reps, table := ScanTile(sig, i, reps, table);
        i := i + 1;
      }
    }

    /** The unique-tile index is the one the scan computes from the current tiles under sig. */
    ghost predicate Built<S>(sig: (SubBlockKind, Point, Point) -> S)
      reads this
      requires Valid()
    {
      var keys := TileKeys(sig);
      && uniqueIds == AsTileIds(Reps(keys, |ids|))
      && ScanInv(keys, coords, tileLookup, |ids|, Reps(keys, |ids|), uniqueLookup)
    }

    /** Partition the tiles into classes of equivalent tiles, keep the first tile of each class as its
        unique tile, point every tile's coordinate to the unique tile of its class, and return the
        number of unique tiles. */
    method BuildUniqueTiles<S(==)>(sig: (SubBlockKind, Point, Point) -> S) returns (count: int)
      requires Valid()
      modifies this
      ensures Valid() && Built(sig)
      ensures ids == old(ids) && coords == old(coords) && pbCoords == old(pbCoords) && pbGsbCoords == old(pbGsbCoords)
      ensures cbxCoords == old(cbxCoords) && cbyCoords == old(cbyCoords) && sbCoords == old(sbCoords)
      ensures tileLookup == old(tileLookup)
      ensures count == |UniqueTiles()| <= |ids|
      ensures forall j1, j2 :: 0 <= j1 < j2 < |UniqueTiles()| ==>
        UniqueTiles()[j1].index < UniqueTiles()[j2].index && !Equivalent(UniqueTiles()[j1], UniqueTiles()[j2], sig)
      ensures forall i :: 0 <= i < |ids| ==>
        && UniqueTile(TileCoordinate(TileId(i))) in UniqueTiles()
        && Equivalent(UniqueTile(TileCoordinate(TileId(i))), TileId(i), sig)
    {
      var reps, table := ScanUniqueTiles(sig);
      ghost var keys := TileKeys(sig);
      ScanTableBelow(keys, coords, tileLookup, reps, table);
      RepsAscending(keys, |ids|);
      uniqueIds := AsTileIds(reps);
      uniqueLookup := table;
      count := |uniqueIds|;
      assert keys == TileKeys(sig);
      UniqueTilesDistinct(sig);
      UniqueTilesCoverAll(sig);
    }

    /** Every tile's coordinate resolves to a listed unique tile that is equivalent to it. */
    lemma UniqueTilesCoverAll<S>(sig: (SubBlockKind, Point, Point) -> S)
      requires Valid() && Built(sig)
      ensures forall i :: 0 <= i < |ids| ==>
        && UniqueTile(TileCoordinate(TileId(i))) in UniqueTiles()
        && Equivalent(UniqueTile(TileCoordinate(TileId(i))), TileId(i), sig)
    {
      forall i | 0 <= i < |ids|
        ensures UniqueTile(TileCoordinate(TileId(i))) in UniqueTiles()
        ensures Equivalent(UniqueTile(TileCoordinate(TileId(i))), TileId(i), sig)
      {
        UniqueTileCovers(sig, i);
      }
    }

    /** Unique tiles are listed in ascending identity order and no two of them are equivalent. */
    lemma UniqueTilesDistinct<S>(sig: (SubBlockKind, Point, Point) -> S)
      requires Valid() && Built(sig)
      ensures forall j1, j2 :: 0 <= j1 < j2 < |UniqueTiles()| ==>
        UniqueTiles()[j1].index < UniqueTiles()[j2].index && !Equivalent(UniqueTiles()[j1], UniqueTiles()[j2], sig)
    {
      var keys := TileKeys(sig);
      RepsAscending(keys, |ids|);
      RepsDistinct(keys, |ids|);
      EquivalentIsSameKey(sig);
    }

    /** Every tile's coordinate resolves to a unique tile that is equivalent to it and no later than it. */
    lemma UniqueTileCovers<S>(sig: (SubBlockKind, Point, Point) -> S, i: nat)
      requires Valid() && Built(sig) && i < |ids|
      ensures UniqueTile(TileCoordinate(TileId(i))) in UniqueTiles()
      ensures Equivalent(UniqueTile(TileCoordinate(TileId(i))), TileId(i), sig)
      ensures UniqueTile(TileCoordinate(TileId(i))).index <= i
    {
      var keys := TileKeys(sig);
      var reps := Reps(keys, |ids|);
      RepsCover(keys, |ids|, i);
      assert Mapped(keys, coords, reps, uniqueLookup, i);
      var m := FirstMatch(keys, reps, keys[i]);
      SameShapeInRange(uniqueLookup, tileLookup);
      assert UniqueTile(coords[i]) == uniqueIds[m];
      EquivalentIffSameKey(uniqueIds[m], TileId(i), sig);
    }

    /** A unique tile is the first tile of its class: no tile with a smaller id is equivalent to it. */
    lemma UniqueTileFirstOfClass<S>(sig: (SubBlockKind, Point, Point) -> S, j: nat, i: nat)
      requires Valid() && Built(sig) && j < |UniqueTiles()| && i < UniqueTiles()[j].index
      ensures !Equivalent(TileId(i), UniqueTiles()[j], sig)
    {
      var keys := TileKeys(sig);
      RepsFirstOfClass(keys, |ids|, j, i);
      EquivalentIffSameKey(TileId(i), uniqueIds[j], sig);
    }

    /** A unique tile's own coordinate resolves to itself. */
    lemma UniqueTileSelf<S>(sig: (SubBlockKind, Point, Point) -> S, j: nat)
      requires Valid() && Built(sig) && j < |UniqueTiles()|
      ensures UniqueTile(TileCoordinate(UniqueTiles()[j])) == UniqueTiles()[j]
    {
      var keys := TileKeys(sig);
      var reps := Reps(keys, |ids|);
      RepsSelf(keys, |ids|, j);
      assert Mapped(keys, coords, reps, uniqueLookup, reps[j]);
      SameShapeInRange(uniqueLookup, tileLookup);
    }

    /** A coordinate with no tile resolves to no unique tile. */
    lemma UniqueTileOfEmptyCell<S>(sig: (SubBlockKind, Point, Point) -> S, c: Point)
      requires Valid() && Built(sig) && FindTile(c) == InvalidTileId
      ensures UniqueTile(c) == InvalidTileId
    {
    }
  }
}
