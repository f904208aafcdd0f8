# RancWorldLayers core, modelled in Dafny

RancWorldLayers is an Unreal plugin that stores gameplay data as raster
*layers* laid over the world. Each layer is a flat byte buffer of
`ResX * ResY` pixels in one of four formats (R8, R16F, RGBA8, RGBA16F).
A layer can keep one point quadtree per "tracked value", so that pixels
holding that value can be found quickly. A subsystem keeps the live layers
in a map from names to layers, and maps world locations onto pixels.

This project models the core of the plugin and proves properties of it:

- `quadtree.dfy` (module `Quadtree`) models `FQuadtree`:
  - the child choice, `Subdivide`, `Insert`, `Remove`/`RemoveFromNode`, and `FindNearest`/`FindNearestRecursive`;
  - nodes are a value datatype, held in the `Quadtree` class whose `root` field the methods update;
  - `Insert` keeps the source's `while` descent;
  - the nearest-point search keeps the pruning, the scan of a node's own points, and the children sorted by box distance.
- `layer_asset.dfy` (module `WorldDataLayerAsset`) holds the asset record and the enums of `WorldDataLayerAsset.h`. It also holds the engine helpers the code uses: `FMath::Clamp`, `IsNearlyEqual`, `FLinearColor::Equals`, `Black`, and `(0,0,0,0)`.
- `pixel_codec.dfy` (module `PixelCodec`) holds what the two revisions of the layer share:
  - `GetBytesPerPixel` and `GetPixelIndex`;
  - the per-format byte encoding and decoding;
  - the flat offset check;
  - the buffer-level read and write.
- `world_data_layer.dfy` (module `WorldDataLayer`) models `UWorldDataLayer` in `WorldDataLayer.cpp`:
  - `Initialize`: the resolution, the default fill, creating the trees, and populating the index;
  - `GetValueAtPixel`, with its check on each axis;
  - `SetValueAtPixel`, with its flat-offset check, its byte store, the dirty flag and the index upkeep.

  It proves two things about the index:
  - when the write upkeep keeps the index consistent with the buffer;
  - where the two comparisons (population versus upkeep) part ways.
- `legacy_world_data_layer.dfy` (module `LegacyWorldDataLayer`) models the earlier `UWorldDataLayer` in `UWorldDataLayer.cpp`. It has no index, a fixed 1024 x 1024 raster for relative layers, and only the flat check on reads, which return opaque black when that check fails.
- `world_layers_subsystem.dfy` (module `WorldLayersSubsystem`) models `UWorldLayersSubsystem`:
  - the name map;
  - `RegisterDataLayer`, `Deinitialize`, and the registration loop of `Initialize`;
  - the three location queries;
  - `WorldLocationToPixel`, which floors and then clamps.
- `legacy_world_data_subsystem.dfy` (module `LegacyWorldDataSubsystem`) models the earlier `UMyWorldDataSubsystem`:
  - `WorldLocationToPixel` divides by 1024 and does not clamp;
  - a lookup that misses leaves the caller's `OutValue` alone.

Modelling choices that hold throughout:

- Engine details that the code cannot see are parameters:
  - The half-float conversion of `FFloat16` is `HalfCodec`, a pair of total functions between reals and 16-bit patterns.
  - Whether `FBox2D::IsInside` counts a point on the box edge as inside is `EdgeRule`. The engine's `IsInside` is strict (its inclusive test is `IsInsideOrOn`), so the shipped plugin is the `ExcludesEdges` instance. The model keeps both instances to show what each one does (see "## Findings").
  - The two are bundled with a layer as its `Engine`.
- Integers are unbounded; an 8-bit store keeps the low eight bits of `RoundToInt(v * 255)`. Floats are reals.
- Asset discovery through the asset registry becomes a sequence of optional assets. `None` stands for an asset whose cast failed.
- An `FName` compares without regard to case. Layer names are strings, and both name maps are keyed by `NameKey(name)`, the name with its capitals folded. Every lookup, every `Add` and the choice of the last asset of a name go through that key.

Points where the code does something easy to misread, which the model follows as written:

- `TArray::Remove` in `RemoveFromNode` deletes every copy of the point from the leaf, not only the first one.
- `SetValueAtPixel` checks only the flat byte offset, not each axis. An `x >= ResX` with a valid offset writes into a later row.
- `WorldLocationToPixel` ignores the layer's world-grid origin. For absolute layers it stretches over a fixed 102400 units rather than dividing by `gridSize / resolution`.
- `WorldDataLayer.h` declares a one-argument `Initialize`, but `WorldDataLayer.cpp` defines `Initialize(InConfig, InWorldGridSize)`. The model follows the definition, so `RegisterDataLayer` and the subsystem's `Initialize` take the world grid size as a parameter.
- The earlier layer gives relative layers a fixed 1024 x 1024 raster.

## Model

| member | source | states |
|---|---|---|
| Quadtree.ChildIndex | Source/RancWorldLayers/Private/Spatial/Quadtree.cpp:78-89 | The child index is below 4. It is 1 or 3 exactly when the point is at or right of the vertical centre line, and 2 or 3 exactly when it is at or below the horizontal one, so a point on a centre line goes to the higher-index side. |
| Quadtree.RoutedPointStaysInside | Source/RancWorldLayers/Private/Spatial/Quadtree.cpp:62-68 | A point of a closed box lies in the closed quadrant it is routed to. |
| Quadtree.SquaredDistanceToPoint | Source/RancWorldLayers/Private/Spatial/Quadtree.cpp:94 | The box distance is non-negative and zero for a point of the closed box. |
| Quadtree.DistSquared | Source/RancWorldLayers/Private/Spatial/Quadtree.cpp:105 | The squared distance is non-negative and zero exactly for equal points. |
| Quadtree.BoxDistanceIsLowerBound | Source/RancWorldLayers/Private/Spatial/Quadtree.cpp:96-101 | The pruning test is sound: no point of a closed box is nearer to the search point than the box. |
| Quadtree.Subdivide | Source/RancWorldLayers/Private/Spatial/Quadtree.cpp:60-76 | The result is the split leaf: four children over the quartered box, no own points, the same box and the same multiset of points, well formed. |
| Quadtree.SplitIsSound | Source/RancWorldLayers/Private/Spatial/Quadtree.cpp:60-76 | Splitting a leaf keeps its box and its multiset of points and yields a well-formed node. |
| Quadtree.PointsFor | Source/RancWorldLayers/Private/Spatial/Quadtree.cpp:70-73 | Each quadrant list holds only points that the child choice sends to that quadrant. |
| Quadtree.PointsForPartition | Source/RancWorldLayers/Private/Spatial/Quadtree.cpp:70-73 | The four quadrant lists of the point-moving loop together hold exactly the leaf's points. |
| Quadtree.InsertedIsSound | Source/RancWorldLayers/Private/Spatial/Quadtree.cpp:9-23 | Insertion keeps the tree well formed and its box, adds exactly one copy of the point to the multiset, and keeps every point in its box when the new one is. |
| Quadtree.InsertedContents | Source/RancWorldLayers/Private/Spatial/Quadtree.cpp:9-23 | Insertion keeps the box and adds exactly one copy of the point. |
| Quadtree.InsertedPointIsReachable | Source/RancWorldLayers/Private/Spatial/Quadtree.cpp:11-17 | After insertion the point sits in the leaf that the descent by child choice reaches. |
| Quadtree.SplitIsOneLevel | Source/RancWorldLayers/Private/Spatial/Quadtree.cpp:19-22 | A split is one level deep: with capacity one, inserting a point twice splits the root, and the child holding both copies stays an over-full leaf. |
| Quadtree.RemoveAll | Source/RancWorldLayers/Private/Spatial/Quadtree.cpp:40 | `TArray::Remove` leaves the list's multiset with every copy of the point gone, and the list shrinks exactly when the point was there. |
| Quadtree.RemoveFromNodeResult | Source/RancWorldLayers/Private/Spatial/Quadtree.cpp:30-51 | Removal keeps the box and reports true iff every box on the descent path contains the point and the point is stored. When the path leaves a box, it returns false and the tree is unchanged. |
| Quadtree.RemoveFromNodeContents | Source/RancWorldLayers/Private/Spatial/Quadtree.cpp:30-51 | When the whole descent path contains the point, the tree's multiset loses every copy of it; otherwise the multiset is unchanged. |
| Quadtree.RemoveFromNodeIsWellFormed | Source/RancWorldLayers/Private/Spatial/Quadtree.cpp:30-51 | Removal keeps the structural invariant. |
| Quadtree.RemoveFromNodeIsSound | Source/RancWorldLayers/Private/Spatial/Quadtree.cpp:30-51 | Everything removal does to a well-formed tree: invariant, box, result, multiset, and no change off the path. |
| Quadtree.IncludedEdgesReachLeaf | Source/RancWorldLayers/Private/Spatial/Quadtree.cpp:32-35 | With edge-inclusive boxes, every point of the closed root box passes every containment test on its path. |
| Quadtree.ExcludedEdgesBlockRemoval | Source/RancWorldLayers/Private/Spatial/Quadtree.cpp:32-35 | With edge-exclusive boxes, a point on the root's min x edge, or on the vertical centre line of a split node, is never removed, and the tree is unchanged. |
| Quadtree.SortByDistance | Source/RancWorldLayers/Private/Spatial/Quadtree.cpp:116-121 | The child order is a permutation of 0..3 listing the children by ascending box distance. |
| Quadtree.InsertIntoPrefix | Source/RancWorldLayers/Private/Spatial/Quadtree.cpp:121 | One insertion step keeps the order a permutation and extends the sorted prefix by one. |
| Quadtree.PrunedNodeHasNothingNearer | Source/RancWorldLayers/Private/Spatial/Quadtree.cpp:96-101 | A pruned node holds no point nearer than the current best. |
| Quadtree.LeafScanned | Source/RancWorldLayers/Private/Spatial/Quadtree.cpp:103-111 | Scanning every own point of a leaf leaves no stored point of the leaf nearer than the best distance. |
| Quadtree.ChildrenScanned | Source/RancWorldLayers/Private/Spatial/Quadtree.cpp:123-126 | Having searched all four children in any permuted order covers the whole node. |
| Quadtree.FindNearestRecursive | Source/RancWorldLayers/Private/Spatial/Quadtree.cpp:91-128 | The best distance only goes down. When it does, the reported point is a stored point at exactly that distance; otherwise the caller's point is kept. A node whose box is no nearer than the current best is pruned, leaving both unchanged. When every point lies in its node's box, no stored point is nearer than the final best. |
| Quadtree.SearchChildren | Source/RancWorldLayers/Private/Spatial/Quadtree.cpp:113-127 | The same three promises for the sorted search of the four children. |
| Quadtree.Quadtree.constructor | Source/RancWorldLayers/Private/Spatial/Quadtree.cpp:3-7 | A new tree is one empty leaf over the given box, with the given capacity (4 by default), and holds no points. |
| Quadtree.Quadtree.Insert | Source/RancWorldLayers/Private/Spatial/Quadtree.cpp:9-23 | The while-descent, append and one-time split leave the root equal to `Inserted` of the old root, and the tree stays well formed. |
| Quadtree.Quadtree.Remove | Source/RancWorldLayers/Private/Spatial/Quadtree.cpp:25-28 | The result and the new root are those of `RemoveFromNode` at the root, and the tree stays well formed. |
| Quadtree.Quadtree.FindNearest | Source/RancWorldLayers/Private/Spatial/Quadtree.cpp:53-58 | A found point is stored and strictly inside the radius; on a miss the caller's point is kept. With every point in the root box, the search finds a point iff some stored point lies strictly inside the radius, and the point it reports is a nearest one. When the root box itself is no nearer than the radius, nothing is found. |
| Quadtree.OutOfBoxPointIsMissed | Source/RancWorldLayers/Private/Spatial/Quadtree.cpp:96-101 | `Insert` does not check the box: a tree over (0,0)-(4,4) holding (100, 1) misses it in a search from (100, 0) with radius 10, although it lies at distance 1, because the root box is pruned. |
| PixelCodec.BytesPerPixel | Source/RancWorldLayers/Private/WorldDataLayer.cpp:264-279 | Bytes per pixel are channels times bytes per channel (1, 2, 4 or 8), never zero. |
| PixelCodec.RoundToInt | Source/RancWorldLayers/Private/WorldDataLayer.cpp:188 | The rounded integer lies within half a unit of the real, rounding half up. |
| PixelCodec.ToByte | Source/RancWorldLayers/Private/WorldDataLayer.cpp:188 | The byte store keeps the value when it is in 0..255 and is congruent to it mod 256 otherwise. |
| PixelCodec.Decode8 | Source/RancWorldLayers/Private/WorldDataLayer.cpp:136 | An 8-bit channel decodes to a value in [0, 1]. |
| PixelCodec.EncodeHalf | Source/RancWorldLayers/Private/WorldDataLayer.cpp:191-192 | A half channel is stored as exactly two bytes. |
| PixelCodec.EncodePixel | Source/RancWorldLayers/Private/WorldDataLayer.cpp:185-205 | The encoding of a colour is exactly one pixel long for the format. |
| PixelCodec.Channel8RoundTrip | Source/RancWorldLayers/Private/WorldDataLayer.cpp:186-197 | A channel in [0, 1] reads back as the nearest multiple of 1/255, within 1/510 of the written value. |
| PixelCodec.Byte8IsStable | Source/RancWorldLayers/Private/WorldDataLayer.cpp:136 | Re-storing a decoded byte gives the same byte. |
| PixelCodec.NegativeChannelWrapsToOne | Source/RancWorldLayers/Private/WorldDataLayer.cpp:188 | With no clamp, a channel of -1/255 is stored as 255 and reads back as 1.0. |
| PixelCodec.LargeChannelWraps | Source/RancWorldLayers/Private/WorldDataLayer.cpp:194 | A channel of 2.0 is stored as 254. |
| PixelCodec.HalfRoundTrip | Source/RancWorldLayers/Private/WorldDataLayer.cpp:191 | A half channel reads back as the engine's float-to-half-to-float value. |
| PixelCodec.PixelRoundTrip | Source/RancWorldLayers/Private/WorldDataLayer.cpp:133-205 | Decoding an encoded colour gives the per-channel read-back. Single-channel formats give G = B = A = 0. |
| PixelCodec.Splice | Source/RancWorldLayers/Private/WorldDataLayer.cpp:183-205 | The pixel store keeps the buffer length, puts the bytes at the offset and leaves every other byte alone. |
| PixelCodec.StorePixel | Source/RancWorldLayers/Private/WorldDataLayer.cpp:183-205 | The byte-by-byte stores of each format equal splicing the colour's encoding in at the offset. |
| PixelCodec.ValidOffsetHoldsWholePixel | Source/RancWorldLayers/Private/WorldDataLayer.cpp:168 | A valid first byte in a buffer of whole pixels means the whole pixel fits. |
| PixelCodec.PixelsAreDisjoint | Source/RancWorldLayers/Private/WorldDataLayer.cpp:259-262 | Distinct pixel ranks occupy disjoint byte ranges. |
| PixelCodec.OffsetHoldsPixel | Source/RancWorldLayers/Private/WorldDataLayer.cpp:123-129 | A valid offset leaves room for all of the pixel's bytes. |
| PixelCodec.WriteAt | Source/RancWorldLayers/Private/WorldDataLayer.cpp:166-207 | A buffer write keeps the buffer well sized. |
| PixelCodec.InBoundsHasValidOffset | Source/RancWorldLayers/Private/WorldDataLayer.cpp:118-127 | Every pixel with both axes in range has a valid offset. |
| PixelCodec.InBoundsPixelsHaveDistinctOffsets | Source/RancWorldLayers/Private/WorldDataLayer.cpp:259-262 | Different in-range pixels start at different offsets. |
| PixelCodec.ReadAfterWrite | Source/RancWorldLayers/Private/WorldDataLayer.cpp:166-207 | The written pixel reads back as the decoded encoding of the written colour. |
| PixelCodec.WriteIsLocal | Source/RancWorldLayers/Private/WorldDataLayer.cpp:183-205 | A write leaves every pixel at another offset reading as before. |
| PixelCodec.ColumnPastRowEndIsNextRow | Source/RancWorldLayers/Private/WorldDataLayer.cpp:259-262 | The offset of the pixel one past the end of row y is that of the first pixel of row y + 1. |
| PixelCodec.FilledBufferReads | Source/RancWorldLayers/Private/WorldDataLayer.cpp:24-34 | In a buffer filled with one encoded colour, every in-range pixel decodes to that colour's read-back. |
| PixelCodec.RankIsInjective | Source/RancWorldLayers/Private/WorldDataLayer.cpp:28-34 | In-range pixels have distinct row-major ranks in [0, ResX * ResY). |
| PixelCodec.FillPixelStep | Source/RancWorldLayers/Private/WorldDataLayer.cpp:28-34 | Writing the default at the pixel of rank k of a buffer filled up to k fills it up to k + 1. |
| WorldDataLayer.LayerResolution | Source/RancWorldLayers/Private/WorldDataLayer.cpp:10-17 | Absolute layers take the asset's resolution. Relative layers take `RoundToInt(gridSize / cellSize)` per axis, within half a pixel of the quotient. |
| WorldDataLayer.ReadPixel | Source/RancWorldLayers/Private/WorldDataLayer.cpp:115-160 | A pixel with either axis out of range reads the default colour. An in-range pixel has a valid offset and reads its decoded bytes. |
| WorldDataLayer.FirstMatch | Source/RancWorldLayers/Private/WorldDataLayer.cpp:213-233 | The chosen key matches, no earlier key matches, and no key matches when none is chosen. |
| WorldDataLayer.DistinctKeys | Source/RancWorldLayers/Private/WorldDataLayer.cpp:89-93 | The index keys are pairwise distinct and are exactly the tracked values. |
| WorldDataLayer.PopulateStep | Source/RancWorldLayers/Private/WorldDataLayer.cpp:100-109 | One step of the population loop files the pixel into the tree of the first matching key and no other tree. |
| WorldDataLayer.PopulationIsComplete | Source/RancWorldLayers/Private/WorldDataLayer.cpp:96-111 | After the last pixel, each tree holds each in-range pixel filed under its key exactly once, and nothing else. |
| WorldDataLayer.FourChannelInitialIndexIsConsistent | Source/RancWorldLayers/Private/WorldDataLayer.cpp:96-111 | For RGBA8 and RGBA16F the populated index is consistent in the sense the write upkeep keeps. |
| WorldDataLayer.InitialIndexHoldsDefault | Source/RancWorldLayers/Private/WorldDataLayer.cpp:86-112 | Right after `Initialize`, every in-range pixel is in the tree of the first key equal to the stored default, and every other tree is empty. |
| WorldDataLayer.TreeAfterWrite | Source/RancWorldLayers/Private/WorldDataLayer.cpp:210-256 | A tree after the upkeep of a write is still well formed and covers the same box. |
| WorldDataLayer.IndexAfterWrite | Source/RancWorldLayers/Private/WorldDataLayer.cpp:210-256 | The index after a write has as many trees, each one the tree after the write. |
| WorldDataLayer.TreeAfterWriteCount | Source/RancWorldLayers/Private/WorldDataLayer.cpp:228-253 | With edge-inclusive boxes, one tree's count for any pixel after a write: the written pixel leaves the remove tree and joins the insert tree; every other count is unchanged. |
| WorldDataLayer.WriteKeepsIndexConsistent | Source/RancWorldLayers/Private/WorldDataLayer.cpp:166-257 | An in-range write whose raw and read-back values select the same tree keeps the index consistent with the buffer (edge-inclusive boxes). |
| WorldDataLayer.WriteKeepsTreeConsistent | Source/RancWorldLayers/Private/WorldDataLayer.cpp:166-257 | The same for one tree. |
| WorldDataLayer.LayerReadAfterWrite | Source/RancWorldLayers/Private/WorldDataLayer.cpp:115-207 | After an in-range write, the written pixel reads the decoded encoding of the new value and every other pixel reads as before. |
| WorldDataLayer.FourChannelPopulationIsConsistent | Source/RancWorldLayers/Private/WorldDataLayer.cpp:104 | For four-channel formats, the population's full comparison and the upkeep's format-aware comparison pick the same key. |
| WorldDataLayer.SingleChannelPopulationMissesOpaqueKey | Source/RancWorldLayers/Private/WorldDataLayer.cpp:104 | For R8 the two comparisons disagree: opaque red is never matched at population, yet the upkeep files red pixels under it. |
| WorldDataLayer.QuantisationCanReclassify | Source/RancWorldLayers/Private/WorldDataLayer.cpp:178-180 | 0.999 written to an R8 layer tracking 1.0 is not filed under the key, yet reads back as exactly 1.0. |
| WorldDataLayer.OffRasterWriteBreaksConsistency | Source/RancWorldLayers/Private/WorldDataLayer.cpp:166-256 | A write at a pixel with a valid flat offset that lies off the raster but on its closed box, of a value some key matches, leaves no index consistent after the upkeep, whatever the trees held before: the new value's tree holds the off-raster point. |
| WorldDataLayer.OffRasterWriteLandsInNextRow | Source/RancWorldLayers/Private/WorldDataLayer.cpp:166-207 | On a 1x2 R8 raster, (1, 0) has a valid offset though it is off the raster, and writing red there turns (0, 1) red. |
| WorldDataLayer.OffRasterWriteExample | Source/RancWorldLayers/Private/WorldDataLayer.cpp:166-256 | The off-raster case arises from a consistent index: a blank 1x2 R8 raster tracking red with an empty tree, and a red write at (1, 0). |
| WorldDataLayer.WorldDataLayer.Roots | Source/RancWorldLayers/Private/WorldDataLayer.cpp:92 | The roots are those of the index trees, in map order. |
| WorldDataLayer.WorldDataLayer.Initialize | Source/RancWorldLayers/Private/WorldDataLayer.cpp:6-113 | The layer gets the configured resolution and a buffer holding the default in every pixel, with the dirty flag clear. The index keys are the distinct tracked values (none without the index), and the index is populated. |
| WorldDataLayer.WorldDataLayer.FillWithDefault | Source/RancWorldLayers/Private/WorldDataLayer.cpp:27-35 | The fill loop leaves the buffer holding the default's encoding in every pixel. |
| WorldDataLayer.WorldDataLayer.FillRow | Source/RancWorldLayers/Private/WorldDataLayer.cpp:30-33 | One row of the fill loop fills the buffer one row further. |
| WorldDataLayer.WorldDataLayer.FillPixel | Source/RancWorldLayers/Private/WorldDataLayer.cpp:32 | One `SetValueAtPixel` of the fill loop fills the buffer one pixel further. |
| WorldDataLayer.WorldDataLayer.CreateIndexTrees | Source/RancWorldLayers/Private/WorldDataLayer.cpp:89-93 | Tree creation gives the distinct tracked values as keys, each with an empty tree over the raster. |
| WorldDataLayer.WorldDataLayer.EmplaceTracked | Source/RancWorldLayers/Private/WorldDataLayer.cpp:92 | `Emplace` appends a new key with an empty tree and keeps a key that is already present in its place. |
| WorldDataLayer.WorldDataLayer.PopulateIndex | Source/RancWorldLayers/Private/WorldDataLayer.cpp:96-111 | The population loop files every in-range pixel under the first key its value `Equals`. |
| WorldDataLayer.WorldDataLayer.PopulateRow | Source/RancWorldLayers/Private/WorldDataLayer.cpp:98-110 | One row of the population loop files the pixels of that row. |
| WorldDataLayer.WorldDataLayer.FilePixel | Source/RancWorldLayers/Private/WorldDataLayer.cpp:100-109 | One pixel of the population loop is filed. |
| WorldDataLayer.WorldDataLayer.GetValueAtPixel | Source/RancWorldLayers/Private/WorldDataLayer.cpp:115-160 | Out of range on either axis gives the default colour. In range gives the decoded bytes at a valid offset. |
| WorldDataLayer.WorldDataLayer.FindIndexFor | Source/RancWorldLayers/Private/WorldDataLayer.cpp:213-233 | The loop over the index map returns the first key that matches, or none. |
| WorldDataLayer.WorldDataLayer.SetValueAtPixel | Source/RancWorldLayers/Private/WorldDataLayer.cpp:166-257 | The buffer becomes the buffer write, and the dirty flag is set iff the offset was valid. The keys are unchanged. When the offset is valid and the index is built and non-empty, the pixel leaves the tree of the first key matching the old read-back and joins the tree of the first key matching the raw new value; otherwise the index is unchanged. |
| WorldDataLayer.WorldDataLayer.StoreAt | Source/RancWorldLayers/Private/WorldDataLayer.cpp:183-207 | The store writes the encoding at the pixel, sets the dirty flag and leaves the index alone. |
| WorldDataLayer.WorldDataLayer.UpdateIndex | Source/RancWorldLayers/Private/WorldDataLayer.cpp:210-256 | The removal and insertion loops leave the index as `IndexAfterWrite` and the layer's own fields unchanged. |
| WorldDataLayer.WorldDataLayer.RemoveFromTree | Source/RancWorldLayers/Private/WorldDataLayer.cpp:230 | Only the chosen tree changes, as `Remove` does. |
| WorldDataLayer.WorldDataLayer.InsertIntoTree | Source/RancWorldLayers/Private/WorldDataLayer.cpp:252 | Only the chosen tree changes, as `Insert` does. |
| LegacyWorldDataLayer.LegacyReadAfterWrite | Source/RancWorldLayers/Private/UWorldDataLayer.cpp:32-99 | A pixel just written reads back as the decoded encoding of the new value; for storable colours, as its read-back. |
| LegacyWorldDataLayer.LegacyWriteIsLocal | Source/RancWorldLayers/Private/UWorldDataLayer.cpp:67-99 | A write changes what no other offset reads, and a write at an invalid offset changes nothing. |
| LegacyWorldDataLayer.LegacyReadWrapsToNextRow | Source/RancWorldLayers/Private/UWorldDataLayer.cpp:32-39 | With no check on each axis, the column one past row y reads the first pixel of row y + 1. |
| LegacyWorldDataLayer.LegacyFilledBufferReads | Source/RancWorldLayers/Private/UWorldDataLayer.cpp:17-37 | In a buffer filled with one colour, every valid offset reads that colour's read-back, whatever its axes, and every other pixel reads black. |
| LegacyWorldDataLayer.RevisionsDisagreeOffRaster | Source/RancWorldLayers/Private/UWorldDataLayer.cpp:32-37 | One column past the right edge, the current layer reads its default while the earlier one reads the next row's first pixel. Left of the raster, the current layer reads the default and the earlier one reads black. |
| LegacyWorldDataLayer.WorldDataLayer.Initialize | Source/RancWorldLayers/Private/UWorldDataLayer.cpp:3-30 | The raster is the asset's own for absolute layers and 1024 x 1024 otherwise. The buffer holds the default in every pixel, and the dirty flag is clear. |
| LegacyWorldDataLayer.WorldDataLayer.FillWithDefault | Source/RancWorldLayers/Private/UWorldDataLayer.cpp:20-27 | The fill loop leaves the default's encoding in every pixel. |
| LegacyWorldDataLayer.WorldDataLayer.FillRow | Source/RancWorldLayers/Private/UWorldDataLayer.cpp:23-26 | One row of the fill loop fills the buffer one row further. |
| LegacyWorldDataLayer.WorldDataLayer.GetValueAtPixel | Source/RancWorldLayers/Private/UWorldDataLayer.cpp:32-65 | An invalid flat offset reads opaque black; a valid one reads the decoded bytes, whatever the axes. |
| LegacyWorldDataLayer.WorldDataLayer.SetValueAtPixel | Source/RancWorldLayers/Private/UWorldDataLayer.cpp:67-99 | The buffer becomes the buffer write (no change at an invalid offset), and the dirty flag is set iff the offset was valid. |
| WorldLayersSubsystem.WorldLocationToPixel | Source/RancWorldLayers/Private/WorldLayersSubsystem.cpp:216-242 | On a raster with at least one pixel, the result is always in bounds, and a cell index already on the raster is kept unchanged. |
| WorldLayersSubsystem.CellHoldsLocation | Source/RancWorldLayers/Private/WorldLayersSubsystem.cpp:219-235 | Along one axis, the cell index k satisfies `k * w <= loc < (k + 1) * w` for the pixel width w (102400 / Res or the cell size). It lies on the raster exactly when `0 <= loc < Res * w`. |
| WorldLayersSubsystem.WorldLocationToPixelIsMonotone | Source/RancWorldLayers/Private/WorldLayersSubsystem.cpp:216-242 | Moving the location forwards never moves the pixel backwards, clamp included. |
| WorldLayersSubsystem.Sample | Source/RancWorldLayers/Private/WorldLayersSubsystem.cpp:62-63 | On a layer with pixels, a query reads the stored pixel at the mapped location, never an out-of-range default. On an empty raster it reads the default. |
| WorldLayersSubsystem.SampleAfterWrite | Source/RancWorldLayers/Private/WorldLayersSubsystem.cpp:80-88 | After a write at one location, locations mapping to the same pixel read the decoded encoding of the new value, and all others read as before. |
| WorldLayersSubsystem.LastNamedIsLatest | Source/RancWorldLayers/Private/WorldLayersSubsystem.cpp:16-20 | The asset a name ends up with carries that name, case ignored, and is the latest discovered asset carrying it; there is none exactly when no asset carried it. |
| WorldLayersSubsystem.LastNamedCarries | Source/RancWorldLayers/Private/WorldLayersSubsystem.cpp:16-20 | The asset found carries the name, case ignored. |
| WorldLayersSubsystem.LastNamedHasNoLaterMatch | Source/RancWorldLayers/Private/WorldLayersSubsystem.cpp:16-20 | The asset found is one of the discovered assets, and no later asset carries the name. |
| WorldLayersSubsystem.LastNamedNoneMeansAbsent | Source/RancWorldLayers/Private/WorldLayersSubsystem.cpp:16-20 | Nothing is found only when no asset carries the name. |
| WorldLayersSubsystem.LastNamedIgnoresCase | Source/RancWorldLayers/Private/WorldLayersSubsystem.cpp:16-20 | Case variants of a name find the same asset. |
| WorldLayersSubsystem.CaseVariantReplacesEarlierAsset | Source/RancWorldLayers/Private/WorldLayersSubsystem.cpp:16-20 | An asset named "roads" discovered after one named "Roads" replaces it, and a lookup of "ROADS" finds the later one. |
| WorldLayersSubsystem.LastNamedStep | Source/RancWorldLayers/Private/WorldLayersSubsystem.cpp:16-20 | One more asset changes the last asset of its own name only. |
| WorldLayersSubsystem.RegisterStep | Source/RancWorldLayers/Private/WorldLayersSubsystem.cpp:16-20 | Registering the next asset keeps the name map holding, under the key of every name, a layer initialised from the last asset carrying it, and a key exactly for the names some asset carried. |
| WorldLayersSubsystem.RegistryAdd | Source/RancWorldLayers/Private/WorldLayersSubsystem.cpp:96 | Adding a sound layer with objects of its own under any name keeps the registry invariant. |
| WorldLayersSubsystem.WorldLayersSubsystem.Initialize | Source/RancWorldLayers/Private/WorldLayersSubsystem.cpp:7-21 | A name, in any case, is registered exactly when some discovered asset carried it. Its key holds a layer initialised from the last such asset. |
| WorldLayersSubsystem.WorldLayersSubsystem.RegisterNext | Source/RancWorldLayers/Private/WorldLayersSubsystem.cpp:16-20 | One loop step registers the next asset, keeping the registry invariant and the relation above for the assets seen so far. |
| WorldLayersSubsystem.WorldLayersSubsystem.Deinitialize | Source/RancWorldLayers/Private/WorldLayersSubsystem.cpp:51-55 | The map is empty. |
| WorldLayersSubsystem.WorldLayersSubsystem.RegisterDataLayer | Source/RancWorldLayers/Private/WorldLayersSubsystem.cpp:90-98 | A missing asset changes nothing. Otherwise the key of the asset's name maps to a fresh layer initialised from it, replacing any layer registered under a case variant of the name, and every other key keeps its layer. |
| WorldLayersSubsystem.WorldLayersSubsystem.Add | Source/RancWorldLayers/Private/WorldLayersSubsystem.cpp:96 | The key of the name maps to the layer, replacing any entry under a case variant of the name, and the registry invariant holds. |
| WorldLayersSubsystem.WorldLayersSubsystem.GetValueAtLocation | Source/RancWorldLayers/Private/WorldLayersSubsystem.cpp:57-68 | Found iff the name is registered in some case. The value is the layer's sample at the location, or (0,0,0,0) when not found. |
| WorldLayersSubsystem.WorldLayersSubsystem.GetFloatValueAtLocation | Source/RancWorldLayers/Private/WorldLayersSubsystem.cpp:70-78 | The red channel of the sample when the name is registered in some case, 0 otherwise. |
| WorldLayersSubsystem.WorldLayersSubsystem.SetValueAtLocation | Source/RancWorldLayers/Private/WorldLayersSubsystem.cpp:80-88 | A name unknown in every case changes nothing. Otherwise the layer under the name's key gets `SetValueAtPixel` at the mapped pixel (buffer, dirty flag and index as that method states). Every other layer is unchanged: its fields (buffer, flag, index keys and tree list) and its tree roots. |
| LegacyWorldDataSubsystem.AxisOnRaster | Source/RancWorldLayers/Private/UMyWorldDataSubsystem.cpp:70-73 | Along one axis, the floored scaled location lies on the raster exactly when the location lies in [0, 1024). |
| LegacyWorldDataSubsystem.LegacyPixelOnRasterIff | Source/RancWorldLayers/Private/UMyWorldDataSubsystem.cpp:64-76 | With no clamp, the pixel is in bounds exactly when the location lies in the 1024 x 1024 world. |
| LegacyWorldDataSubsystem.LegacyFarEdgeReadsNextRow | Source/RancWorldLayers/Private/UMyWorldDataSubsystem.cpp:64-76 | The location x = 1024 maps one column past the raster, and the read there lands on the first pixel of the next row. |
| LegacyWorldDataSubsystem.LegacySample | Source/RancWorldLayers/Private/UMyWorldDataSubsystem.cpp:37-38 | A location in the world reads a stored pixel, and an invalid offset reads opaque black. |
| LegacyWorldDataSubsystem.WorldLocationHasValidOffset | Source/RancWorldLayers/Private/UMyWorldDataSubsystem.cpp:64-76 | A location in the world maps to a pixel with a valid offset. |
| LegacyWorldDataSubsystem.RegisterStep | Source/RancWorldLayers/Private/UMyWorldDataSubsystem.cpp:14-23 | Adding a layer for the next asset keeps the name map holding, under the key of every name, a layer in the initial state of the last asset carrying it, and a key exactly for the names some asset carried. |
| LegacyWorldDataSubsystem.MyWorldDataSubsystem.Initialize | Source/RancWorldLayers/Private/UMyWorldDataSubsystem.cpp:5-24 | A name, in any case, is registered exactly when some discovered asset carried it. Its key holds a layer in the initial state for the last such asset. |
| LegacyWorldDataSubsystem.MyWorldDataSubsystem.RegisterNext | Source/RancWorldLayers/Private/UMyWorldDataSubsystem.cpp:14-23 | One loop step adds a layer for the next asset, if any, keeping no two names on one layer and the relation above for the assets seen so far. |
| LegacyWorldDataSubsystem.MyWorldDataSubsystem.AddLayerFor | Source/RancWorldLayers/Private/UMyWorldDataSubsystem.cpp:17-22 | A new layer in the asset's initial state goes under the key of its name, replacing any layer under a case variant, and every other key keeps its layer. |
| LegacyWorldDataSubsystem.MyWorldDataSubsystem.Add | Source/RancWorldLayers/Private/UMyWorldDataSubsystem.cpp:21 | The key of the name maps to the layer, replacing any entry under a case variant of the name, and no two names share a layer. |
| LegacyWorldDataSubsystem.MyWorldDataSubsystem.Deinitialize | Source/RancWorldLayers/Private/UMyWorldDataSubsystem.cpp:26-30 | The map is empty. |
| LegacyWorldDataSubsystem.MyWorldDataSubsystem.GetValueAtLocation | Source/RancWorldLayers/Private/UMyWorldDataSubsystem.cpp:32-42 | Found iff the name is registered in some case. The value is the layer's sample, or the caller's value untouched when not found. |
| LegacyWorldDataSubsystem.MyWorldDataSubsystem.GetFloatValueAtLocation | Source/RancWorldLayers/Private/UMyWorldDataSubsystem.cpp:44-52 | The red channel of the sample when the name is registered in some case, 0 otherwise. |
| LegacyWorldDataSubsystem.MyWorldDataSubsystem.SetValueAtLocation | Source/RancWorldLayers/Private/UMyWorldDataSubsystem.cpp:54-62 | A name unknown in every case changes nothing. Otherwise the layer under the name's key gets the write at the unclamped pixel, and every other layer is unchanged. |
| WorldDataLayerAsset.NameKeyFolds | Source/RancWorldLayers/Public/WorldDataLayerAsset.h:106 | The key an `FName` is compared by has the name's length and folds each ASCII capital, character by character. |
| WorldDataLayerAsset.SameNameIff | Source/RancWorldLayers/Public/WorldDataLayerAsset.h:106 | Two names are one name exactly when they have the same length and agree character by character once capitals are folded. |
| WorldDataLayerAsset.NameKeyIsCanonical | Source/RancWorldLayers/Public/WorldLayersSubsystem.h:59 | A key is its own key and is the same name as the name it comes from, so the map's keys stand for their whole case class. |
| WorldDataLayerAsset.CaseVariantsAreOneName | Source/RancWorldLayers/Public/WorldDataLayerAsset.h:106 | "Roads", "ROADS" and "roads" are one name; "Road" and "Rails" are not. |
| WorldDataLayerAsset.Clamp | Source/RancWorldLayers/Private/WorldLayersSubsystem.cpp:238-239 | The clamped value lies in [lo, hi] and equals the input when the input already does. |

## Left out

- Half-precision conversion (`FFloat16`) is the `HalfCodec` parameter: two bytes per channel, low byte first. The float-to-half rounding itself is not modelled.
- Floating point is modelled as reals: no float rounding in `v * 255`, in `loc / WorldBounds`, or in the 1/255 decode.
- `int32` arithmetic does not wrap: pixel offsets, `ResX * ResY * bpp`, and the saturation of `FloorToInt`/`RoundToInt` on huge values are unbounded integers here.
- `InitialDataTexture` import in `Initialize` (texture locking, sRGB conversion) is not modelled. The layer is left holding the default everywhere.
- `LastReadbackTime` and `bIsInitializing` are not modelled; nothing in the core reads them.
- PNG export and import, the debug texture, `Tick`, GPU sync and readback are not modelled (file I/O and GPU work).
- Asset-registry discovery is the `assets` parameter; `UWorldLayersSubsystem::Get` is host-runtime lookup and is not modelled.
- `FindNearestPointWithValue`, `PixelToWorldLocation`, interpolated sampling, immutable-layer rejection and the out-of-bounds policy are declared or tested but not implemented in the code, so they are not modelled.
- UI, actors, the volume, editor actions and module boilerplate are not modelled.
- `Quadtree.SortByDistance`: the order among children at equal box distance is whatever the insertion sort gives. `TArray::Sort` promises no particular tie order, so only sortedness and permutation are stated.
- The branch of `RemoveFromNode` for a missing child (`Children[ChildIndex]` null under a split node) cannot occur in a well-formed tree, so the model has no such case.
- `WorldDataLayer.WorldDataLayer.EmplaceTracked`: a repeated tracked value keeps its first key and its (empty) tree, rather than getting a replacement tree object. Both are empty at that point, so no query can tell them apart.
- `WorldDataLayer.WorldDataLayer.Initialize` requires a configuration whose raster is non-negative and whose relative cell sizes are non-zero. Outside that range the code either divides by zero in float, or sizes the buffer from a product of negative `int32`s. That product can still be positive: a (-2, -3) raster gets a buffer of 6 pixels, the fill loops run zero times, and writes at a valid flat offset still store. The model captures neither case.
- `LegacyWorldDataLayer.WorldDataLayer.Initialize` requires an absolute resolution that is non-negative. A negative resolution sizes the buffer from a product of negative `int32`s, which can still be positive (a (-2, -3) raster gets 6 pixels, and the fill loops run zero times). The model does not capture that case.
- `WorldLayersSubsystem.WorldLayersSubsystem.RegisterDataLayer` does not restate that the new layer's index is populated. The layer's own `Initialize` states that, but the subsystem's ensures stops at the buffer, the flag and the keys.
- `WorldLayersSubsystem.WorldLayersSubsystem.Initialize` likewise states each registered layer's buffer, flag and keys through `InitializedFrom`, but not that its index trees are populated. That fact is `WorldDataLayer.WorldDataLayer.Initialize`'s own ensures (`IndexPopulated`). Carrying it through the registry's frame reasoning makes these proofs too costly for the verifier.
- `WorldLayersSubsystem.WorldLocationToPixel` requires a non-zero cell size for relative layers. With a zero cell size the code divides by zero in float and saturates in `FloorToInt`, which is not modelled.
- `LegacyWorldDataSubsystem.MyWorldDataSubsystem.GetFloatValueAtLocation` passes (0,0,0,0) as the caller's value. The code passes an uninitialised `FLinearColor`, which only matters on a miss, where the result is 0 either way.
- `WorldDataLayer.WriteKeepsIndexConsistent` is stated only for in-range writes, edge-inclusive boxes and values that quantisation does not reclassify. Each other case can break consistency:
  - an off-raster write with a valid offset, at a pixel on the raster's closed box, always does (`OffRasterWriteBreaksConsistency`; `OffRasterWriteExample` shows it arising from a consistent index);
  - quantisation can move a value out of its key's class (`QuantisationCanReclassify`);
  - with edge-exclusive boxes, removal can fail (`ExcludedEdgesBlockRemoval`).
- `WorldDataLayer.WriteKeepsTreeConsistent` has the same three conditions, for the same reasons.
- `Quadtree.Quadtree.FindNearest` is complete and reports a nearest point only when every stored point lies in its node's box (`Contained`). `Insert` never checks the box, and the search prunes a node by the distance to its box, so a point stored outside the root box can be missed (`OutOfBoxPointIsMissed`). A layer's trees cover its raster box. Population files only raster pixels, but a write past a row's end with a valid flat offset can file a point outside that box.
- Names are compared through `NameKey`, which folds only the ASCII capitals A-Z. The engine's case folding of other characters and the number suffix of an `FName` are not modelled.

## Findings

| source | as written | input that shows it | evidently intended | confidence | as-written member | corrected member |
|---|---|---|---|---|---|---|
| Source/RancWorldLayers/Private/Spatial/Quadtree.cpp:32-35 | `RemoveFromNode` descends only while `Bounds.IsInside(Point)`, and the engine's test is strict, so a point on a box's min edge or on a split node's centre line is never reached. | A layer tracking values whose pixel (0, y) holds a tracked value. Writing a different value there leaves (0, y) in the old value's tree, because the root box starts at x = 0. | The write upkeep removes the pixel from its old tree, as with an edge-inclusive test, so the index stays consistent with the buffer. | medium; not executed; rests on the engine's `IsInside` being strict | Quadtree.ExcludedEdgesBlockRemoval | WorldDataLayer.WriteKeepsIndexConsistent |
