# FabricTile and IoPinTable, modelled in Dafny

This project models two bookkeeping structures of OpenFPGA.

**FabricTile** is the registry of fabric tiles. It is declared in `openfpga/src/annotation/fabric_tile.h`.
- Each tile is a programmable block plus the routing blocks around it.
- Each tile has one grid coordinate.
- Each tile has per-tile lists of:
  - programmable-block coordinates, in two frames: the device grid and the GSB (general switch block);
  - x-connection-block coordinates;
  - y-connection-block coordinates;
  - switch-block coordinates.
- A dense `[x][y]` lookup maps each coordinate to its tile.
- `build_unique_tiles` sorts the tiles into classes of structurally equivalent tiles:
  - the first tile of each class, in identity order, becomes that class's unique tile;
  - a second `[x][y]` table maps each coordinate to its class's unique tile.

**IoPinTable** is an id-indexed store of I/O pins. It is declared in `libopenfpga/libpcf/src/base/io_pin_table.h`. Each pin has:
- an internal port, on the fabric;
- an external port, on the packaged chip;
- a perimeter side;
- a direction.

Files:
- `first_match_partition.dfy`, module `FirstMatchPartition`, holds the first-match partition on values.
  - Tiles are numbered in identity order and each carries a key.
  - `Reps(keys, n)` lists the representatives chosen among the first `n` tiles.
  - `FirstMatch` gives the position of the first representative with a given key.
  - The lemmas prove what the partition guarantees.
- `fabric_tile.dfy`, module `FabricTiles`, holds the class `FabricTile`.
  - Its fields are the header's data members, as sequences.
  - `Valid()` is the class invariant:
    - the per-tile sequences are index-aligned;
    - `ids[i] == TileId(i)`;
    - the two programmable-block frames have equal lengths, tile by tile;
    - the lookup and the coordinates agree both ways;
    - the unique-tile table has the lookup's shape and names only tiles;
    - the unique-tile list holds tile ids in strictly ascending order.
  - The scan inside `build_unique_tiles` is stated and proved on values, as `ScanInv`, `ScanStep` and `ScanResult`.
  - The loops are in `ScanUniqueTiles` (over tiles, keeping `ScanInv` through `ScanTile`) and `FirstEquivalent` (over representatives). `BuildUniqueTiles` stores their result, which is tied to `Reps`.
- `fabric_tile_scenarios.dfy`, module `FabricTileScenarios`, holds small client programs.
  - A 2 × 2 fabric of identical tiles.
  - A 1 × 3 row whose middle tile differs from its ends.
  - Running the build twice.
- `io_pin_table.dfy`, module `IoPins`, holds the class `IoPinTable` and two client methods.

How things were abstracted:
- **Tile equivalence.** The layout (`DeviceGrid`) and the routing description (`DeviceRRGSB`) become a caller-supplied signature function `sig: (SubBlockKind, Point, Point) -> S`. It receives the sub-block kind, the tile's own coordinate and the sub-block's coordinate, so a signature can describe a sub-block relative to its tile's origin.
  - Two tiles are equivalent when each of their four sub-block lists has the same length as the other tile's list of the same kind.
  - Position by position, the sub-blocks must also have equal signatures.
  - `EquivalentIffSameKey` proves that this is equality of a per-tile key, so it is an equivalence relation.
- **Ids.** `FabricTileId` and `IoPinTableId` are `TileId(n)`/`PinId(n)` or an invalid marker.
- **Coordinates.** `vtr::Point<size_t>` is `Point(x: nat, y: nat)`.
- **Ports and sides.** `BasicPort` and `e_side` are type parameters of `IoPinTable`.

Only the headers of the two classes are part of this model; their `.cpp` bodies are not. Where a header leaves behaviour open, the model chooses as follows:
- The `find_*_index_in_tile` "not found" sentinel is the length of the searched list.
- `create_tile` returns `InvalidTileId` and changes nothing when:
  - the coordinate is outside the lookup, including before any `init`;
  - or another tile is already there.
- `set_tile_coordinate` returns `false` and changes nothing when:
  - the id is not a tile;
  - or the coordinate is outside the lookup;
  - or the cell is held by a different tile.
- `init(max)` sizes the lookup to `max.x` columns of `max.y` cells.
- `build_unique_tiles` starts from an empty unique-tile index each time.
- `create_pin` records the internal port. Until they are set:
  - the external port and the side are `None`;
  - the direction is `NumIoDirections`.

## Model

| member | source | states |
|---|---|---|
| FirstMatchPartition.FirstMatch | openfpga/src/annotation/fabric_tile.h:89-91 | Returns the position of the first representative equivalent to a tile, or the list length when none is. |
| FirstMatchPartition.FirstMatchIs | openfpga/src/annotation/fabric_tile.h:89-91 | Those three properties determine the first match uniquely. |
| FirstMatchPartition.Reps | openfpga/src/annotation/fabric_tile.h:89-91 | The scan over the first n tiles chooses at most n representatives, all among those n tiles. |
| FirstMatchPartition.RepsCover | openfpga/src/annotation/fabric_tile.h:89-91 | Every scanned tile matches a representative, and that representative is no later than the tile. |
| FirstMatchPartition.RepsAscending | openfpga/src/annotation/fabric_tile.h:39-40 | Representatives are listed in ascending identity order. |
| FirstMatchPartition.RepsDistinct | openfpga/src/annotation/fabric_tile.h:89-91 | No two representatives are equivalent. |
| FirstMatchPartition.RepsFirstOfClass | openfpga/src/annotation/fabric_tile.h:89-91 | A representative is the first tile of its class: no earlier tile is equivalent to it. |
| FirstMatchPartition.RepsSelf | openfpga/src/annotation/fabric_tile.h:89-91 | Each representative is mapped to itself. |
| FirstMatchPartition.RepsSeparate | openfpga/src/annotation/fabric_tile.h:89-91 | Tiles that are not equivalent are mapped to different representatives. |
| FirstMatchPartition.RepsAllEquivalent | openfpga/src/annotation/fabric_tile.h:89-91 | When all tiles are equivalent, tile 0 is the only representative. |
| FabricTiles.Put | openfpga/src/annotation/fabric_tile.h:125-128 | Writing one cell of an `[x][y]` table keeps its shape and changes that cell only. |
| FabricTiles.SameSignaturesIffEqual | openfpga/src/annotation/fabric_tile.h:97-101 | Two sub-block lists compare equal, length and positionwise, exactly when their signature sequences are equal. |
| FabricTiles.IndexOf | openfpga/src/annotation/fabric_tile.h:41-55 | The linear scan returns the first position of the coordinate, or the list length when the coordinate is absent. |
| FabricTiles.CompareSignatures | openfpga/src/annotation/fabric_tile.h:97-101 | The loop decides exactly whether two sub-block lists have equal lengths and positionwise-equal signatures. |
| FabricTiles.ScanStart | openfpga/src/annotation/fabric_tile.h:89-91 | Before any tile is scanned, the scan invariant holds with no representatives and an all-invalid table of the lookup's shape. |
| FabricTiles.ScanStep | openfpga/src/annotation/fabric_tile.h:89-91 | Scanning one more tile keeps the scan invariant: the tile joins its first equivalent representative or becomes a new one, and only its cell is written. |
| FabricTiles.ScanResult | openfpga/src/annotation/fabric_tile.h:126-129 | After the scan, every tile's cell names its representative, which is no later than the tile. Unregistered cells stay invalid, and only tiles are named. |
| FabricTiles.FabricTile.constructor | openfpga/src/annotation/fabric_tile.h:108-129 | A new registry is valid and empty. |
| FabricTiles.FabricTile.Empty | openfpga/src/annotation/fabric_tile.h:68-69 | True exactly when no id is a valid tile id. |
| FabricTiles.FabricTile.TileCoordinate | openfpga/src/annotation/fabric_tile.h:27 | A tile's coordinate looks up to that same tile. |
| FabricTiles.FabricTile.PbCoordinates | openfpga/src/annotation/fabric_tile.h:28-29 | Returns the tile's grid-frame programmable-block list, the list AddPbCoordinate appends to; it is as long as the tile's GSB-frame list. |
| FabricTiles.FabricTile.FindTile | openfpga/src/annotation/fabric_tile.h:37-38 | Tile i is returned exactly when coords[i] is the queried coordinate; otherwise the result is InvalidTileId, including outside the lookup. |
| FabricTiles.FabricTile.UniqueTile | openfpga/src/annotation/fabric_tile.h:34-36 | The result is a valid tile id or InvalidTileId, and it is InvalidTileId outside the lookup. |
| FabricTiles.FabricTile.UniqueTiles | openfpga/src/annotation/fabric_tile.h:39-40 | In every valid state: every listed unique tile is a valid tile id, the list is strictly ascending (so has no repeats), and it is no longer than the number of tiles. |
| FabricTiles.AscendingBound | openfpga/src/annotation/fabric_tile.h:129 | A strictly ascending list of tile ids below n has at most n entries. |
| FabricTiles.FabricTile.ValidTileId | openfpga/src/annotation/fabric_tile.h:94 | An id is valid only if it is one of the created ids; in a valid registry, exactly then. |
| FabricTiles.FabricTile.CbCoordinates | openfpga/src/annotation/fabric_tile.h:30-31 | Returns the tile's x-connection-block list for ChanX and its y list for ChanY: the lists AddCbCoordinate appends to. |
| FabricTiles.FabricTile.SbCoordinates | openfpga/src/annotation/fabric_tile.h:32-33 | Returns the tile's switch-block list, the one AddSbCoordinate appends to and FindSbIndexInTile searches; empty for a new tile (CreateTile). |
| FabricTiles.FabricTile.FindPbIndexInTile | openfpga/src/annotation/fabric_tile.h:41-46 | Returns the first index of the coordinate in the grid-frame list, or in the GSB-frame list when useGsbCoord is set (default false, as in the header); returns that list's length exactly when the coordinate is absent. |
| FabricTiles.FabricTile.FindSbIndexInTile | openfpga/src/annotation/fabric_tile.h:47-50 | Returns the first index of the coordinate in the switch-block list, or the list's length exactly when it is absent. |
| FabricTiles.FabricTile.FindCbIndexInTile | openfpga/src/annotation/fabric_tile.h:51-55 | Returns the same as FindSbIndexInTile, over the connection-block list of the given orientation. |
| FabricTiles.FabricTile.PbInTile | openfpga/src/annotation/fabric_tile.h:56-61 | True exactly when the coordinate is in the chosen programmable-block list, i.e. when the index search does not return the sentinel. |
| FabricTiles.FabricTile.SbInTile | openfpga/src/annotation/fabric_tile.h:62-64 | True exactly when the coordinate is in the tile's switch-block list. |
| FabricTiles.FabricTile.CbInTile | openfpga/src/annotation/fabric_tile.h:65-67 | True exactly when the coordinate is in the tile's connection-block list of that orientation. |
| FabricTiles.FabricTile.InvalidateTileInLookup | openfpga/src/annotation/fabric_tile.h:104 | Sets the coordinate's lookup cell to InvalidTileId and touches nothing else; a coordinate outside the lookup is ignored. |
| FabricTiles.FabricTile.RegisterTileInLookup | openfpga/src/annotation/fabric_tile.h:105-106 | Succeeds exactly when the cell exists and is free; it then writes the tile there. Otherwise nothing changes. |
| FabricTiles.FabricTile.CreateTile | openfpga/src/annotation/fabric_tile.h:72 | On success: the next id, which is valid, has the given coordinate and is found at it; the tile has empty sub-block lists and the registry is no longer empty. Refused, with nothing changed, when the cell is outside the lookup or taken. |
| FabricTiles.FabricTile.SetTileCoordinate | openfpga/src/annotation/fabric_tile.h:73-74 | On success: the tile is found at the new coordinate, its old cell is freed, and every other cell keeps its tile. Refused, with nothing changed, for an invalid id, an out-of-range coordinate or a cell held by another tile. |
| FabricTiles.FabricTile.AddPbCoordinate | openfpga/src/annotation/fabric_tile.h:75-77 | Appends the grid coordinate and the GSB coordinate to the tile's two lists, which keeps them of equal length; nothing else changes. |
| FabricTiles.FabricTile.AddCbCoordinate | openfpga/src/annotation/fabric_tile.h:78-79 | Appends to the x list for ChanX and to the y list for ChanY; the other orientation and all other lists are unchanged. |
| FabricTiles.FabricTile.AddSbCoordinate | openfpga/src/annotation/fabric_tile.h:80-81 | Appends to the tile's switch-block list only. |
| FabricTiles.FabricTile.Clear | openfpga/src/annotation/fabric_tile.h:85-86 | Drops every tile, both lookups and the unique-tile list; the registry is then empty. |
| FabricTiles.FabricTile.Init | openfpga/src/annotation/fabric_tile.h:87-88 | Clears, then sizes both lookups to maxCoord, all invalid; the registry is then empty and no coordinate finds a tile. |
| FabricTiles.FabricTile.EquivalentIffSameKey | openfpga/src/annotation/fabric_tile.h:97-101 | Two tiles are equivalent exactly when their keys are equal. |
| FabricTiles.FabricTile.SinglePbEquivalent | openfpga/src/annotation/fabric_tile.h:96-101 | Two tiles with one programmable block each and no connection or switch blocks are equivalent exactly when their programmable blocks have the same signature. |
| FabricTiles.FabricTile.EquivalentIsSameKey | openfpga/src/annotation/fabric_tile.h:97-101 | The same holds for all pairs of tiles at once. |
| FabricTiles.FabricTile.EquivalentTile | openfpga/src/annotation/fabric_tile.h:97-101 | Decides structural equivalence. Equivalent tiles have the same number of sub-blocks of each kind. |
| FabricTiles.FabricTile.FirstEquivalent | openfpga/src/annotation/fabric_tile.h:89-91 | The inner comparison loop finds the first representative equivalent to the tile, or reports that none is. |
| FabricTiles.FabricTile.ScanTile | openfpga/src/annotation/fabric_tile.h:89-91 | One iteration of the scan keeps the scan invariant: tile i joins its first equivalent representative or becomes a new one, and its cell is written. |
| FabricTiles.FabricTile.ScanUniqueTiles | openfpga/src/annotation/fabric_tile.h:89-91 | The loop over tiles in identity order computes exactly the first-match representatives and the coordinate-to-representative table. |
| FabricTiles.FabricTile.BuildUniqueTiles | openfpga/src/annotation/fabric_tile.h:89-91 | Tile data is unchanged. The count returned is the number of unique tiles, at most the tile count. Unique tiles are ascending and pairwise non-equivalent. Every tile's coordinate resolves to a unique tile equivalent to it. |
| FabricTiles.FabricTile.UniqueTilesCoverAll | openfpga/src/annotation/fabric_tile.h:34-40 | After the build, every tile's coordinate resolves to a listed unique tile that is equivalent to it. |
| FabricTiles.FabricTile.UniqueTilesDistinct | openfpga/src/annotation/fabric_tile.h:126-129 | After the build, unique tiles are ascending and pairwise non-equivalent. |
| FabricTiles.FabricTile.UniqueTileCovers | openfpga/src/annotation/fabric_tile.h:34-36 | After the build, a tile's coordinate resolves to a listed unique tile that is equivalent to it and no later than it. |
| FabricTiles.FabricTile.UniqueTileFirstOfClass | openfpga/src/annotation/fabric_tile.h:126-129 | No tile with a smaller id is equivalent to a unique tile. |
| FabricTiles.FabricTile.UniqueTileSelf | openfpga/src/annotation/fabric_tile.h:34-36 | A unique tile's own coordinate resolves to itself. |
| FabricTiles.FabricTile.UniqueTileOfEmptyCell | openfpga/src/annotation/fabric_tile.h:34-36 | A coordinate with no tile resolves to no unique tile. |
| FabricTileScenarios.PlaceTile | openfpga/src/annotation/fabric_tile.h:72-79 | Creating a tile at a free cell and adding its blocks appends exactly those lists; the programmable blocks get the same coordinates in the GSB frame. |
| FabricTileScenarios.BuildGrid | openfpga/src/annotation/fabric_tile.h:72-77 | Populates a 2 × 2 fabric, one programmable block per tile. |
| FabricTileScenarios.GridUnique | openfpga/src/annotation/fabric_tile.h:89-91 | In that grid, with a uniform signature, tile 0 is the only unique tile and all four cells resolve to it. |
| FabricTileScenarios.UniformGrid | openfpga/src/annotation/fabric_tile.h:89-91 | The build over that grid returns 1. |
| FabricTileScenarios.BuildRow | openfpga/src/annotation/fabric_tile.h:72-79 | Populates a 1 × 3 row whose middle tile has two x-connection blocks and whose end tiles have one each. |
| FabricTileScenarios.RowSeparate | openfpga/src/annotation/fabric_tile.h:89-91 | The middle tile's unique tile differs from both end tiles' unique tiles, so there are at least two unique tiles. |
| FabricTileScenarios.Row | openfpga/src/annotation/fabric_tile.h:89-91 | The build over that row returns at least 2, whatever the signature function. |
| FabricTileScenarios.BuildTwice | openfpga/src/annotation/fabric_tile.h:89-91 | Two builds over unchanged tiles return the same count. |
| IoPins.IoPinTable.constructor | libopenfpga/libpcf/src/base/io_pin_table.h:64-65 | A new table is valid and has no pins. |
| IoPins.IoPinTable.ValidPinId | libopenfpga/libpcf/src/base/io_pin_table.h:86-87 | An id is valid only if it is one of the stored ids; in a valid table, exactly then (so, by CreatePins, exactly the ids create_pin returned). |
| IoPins.IoPinTable.InternalPin | libopenfpga/libpcf/src/base/io_pin_table.h:72-73 | Returns the internal port stored at the pin's index; CreatePin states it is the port the pin was created with. |
| IoPins.IoPinTable.InternalPins | libopenfpga/libpcf/src/base/io_pin_table.h:67-70 | Enumerates PinId(0), PinId(1), ... in creation order; an id is listed exactly when it is valid. |
| IoPins.IoPinTable.Empty | libopenfpga/libpcf/src/base/io_pin_table.h:75-76 | True exactly when no id is valid. |
| IoPins.IoPinTable.ReservePins | libopenfpga/libpcf/src/base/io_pin_table.h:79-80 | Valid ids, emptiness, the enumeration and every internal pin are unchanged. |
| IoPins.IoPinTable.CreatePin | libopenfpga/libpcf/src/base/io_pin_table.h:82-83 | Returns the next id, which is valid and names the given internal port. The enumeration grows by that id; every earlier pin stays valid with its port. All five parallel sequences grow by one. |
| IoPins.CreateTwoPins | libopenfpga/libpcf/src/base/io_pin_table.h:82-87 | Two pins created in a row get consecutive ids and keep their own ports. |
| IoPins.CreatePins | libopenfpga/libpcf/src/base/io_pin_table.h:86-96 | Filling a new table: the valid ids are exactly the ids that create_pin returned, each names its port, and the table is empty exactly when no port was added. |

## Left out

- FabricTiles.FabricTile.EquivalentTile: equal sub-block counts alone do not make two tiles equivalent; their sub-blocks must also have the same signatures, position by position. For tiles with one programmable block and no routing blocks, that holds exactly when the two programmable-block signatures agree (`SinglePbEquivalent`).
- `DeviceGrid` and `DeviceRRGSB`: replaced by the signature function `sig`. The model does not fix how a sub-block's coordinate is translated to its tile's local origin; `sig` is given both coordinates and does that itself.
- FabricTiles.FabricTile.CreateTile: a refused call (coordinate outside the lookup, or already taken) creates no tile record, so `empty()` keeps its old value; the model keeps a registry in which every tile is registered at its coordinate, and does not promise that `empty()` is false after a refused `create_tile`.
- `build_unique_tiles()` with no arguments (fabric_tile.h:84): the header gives it no inputs and no stated behaviour.
- The structural-inconsistency failure of the build, for a coordinate the layout or routing description cannot resolve: `sig` is total, so no such case arises in the model.
- Connection-block types other than `CHANX` and `CHANY`: `CbType` has only those two values.
- Capacity: `reserve_pins` is modelled as changing nothing observable, because memory reservation has no visible effect.
- Setters for a pin's external port, side and direction: the header declares none, so those fields keep their initial values.
- Object lifetime, copying, and the `vtr::vector`/`vtr::Range` containers: these are modelled as sequences.
- The constructor the pin-table header declares is `IoPinTables()`, which does not match the class name. It is modelled as the class's constructor.
- The usage comment calls a four-argument `create_io_pin`. The model follows the declared one-argument `create_pin`.
- Unsigned wrap-around of `size_t` coordinates: coordinates are natural numbers, and no arithmetic on them is modelled.
- Misuse of a tile id in an accessor or in `AddPbCoordinate`, `AddCbCoordinate` or `AddSbCoordinate`: these require a valid id, which callers are expected to check first.
- File and netlist I/O: nothing here reads or writes.
